/** The round-robin scheduler: a doubly linked task list, the timer tick that walks it, and exits. */
module Scheduler {

  import opened Bytes

  datatype Registers = Registers(edi: Word32, esi: Word32, ebp: Word32, ebx: Word32, edx: Word32, ecx: Word32, eax: Word32,
                                 ip: Word32, cs: Word32, flags: Word32, esp: Word32, ss: Word32)

  /** What the processor pushed: the registers and one word nobody reads. */
  datatype Frame = Frame(edi: Word32, esi: Word32, ebp: Word32, reserved: Word32, ebx: Word32, edx: Word32, ecx: Word32,
                         eax: Word32, ip: Word32, cs: Word32, flags: Word32, esp: Word32, ss: Word32)

  function SavedFrom(f: Frame): Registers {
    Registers(f.edi, f.esi, f.ebp, f.ebx, f.edx, f.ecx, f.eax, f.ip, f.cs, f.flags, f.esp, f.ss)
  }

  /** Privilege level 3 in the code segment. */
  predicate FromUser(f: Frame) {
    f.cs % 4 == 3
  }

  const USER_DATA_SEGMENT: Word32 := 0x23
  const USER_CODE_SEGMENT: Word32 := 0x1B
  const PROGRAM_ADDRESS: Word32 := 0x400000
  const STACK_ADDRESS: Word32 := 0x3FF000
  const INITIAL: Registers :=
    Registers(0, 0, 0, 0, 0, 0, 0, PROGRAM_ADDRESS, USER_CODE_SEGMENT, 0, STACK_ADDRESS, USER_DATA_SEGMENT)

  // ---------------------------------------------------------------- the abstract machine

  /** The tasks in list order, their saved registers, and the index of the current one. */
  datatype Ring<T> = Ring(tasks: seq<T>, regs: seq<Registers>, cur: nat)

  ghost predicate RingOk<T>(r: Ring<T>) {
    |r.tasks| == |r.regs| && if r.regs == [] then r.cur == 0 else r.cur < |r.regs|
  }

  function Next<T>(r: Ring<T>): nat
    requires r.regs != []
  {
    if r.cur + 1 >= |r.regs| then 0 else r.cur + 1
  }

  function Tick<T>(r: Ring<T>, f: Frame): Ring<T>
    requires RingOk(r)
  {
    if r.regs == [] || !FromUser(f) then r else Ring(r.tasks, r.regs[r.cur := SavedFrom(f)], Next(r))
  }

  function Ticks<T>(r: Ring<T>, fs: seq<Frame>): (s: Ring<T>)
    requires RingOk(r)
    ensures RingOk(s) && s.tasks == r.tasks
    decreases |fs|
  {
    if fs == [] then r else Ticks(Tick(r, fs[0]), fs[1..])
  }

  function Append<T>(r: Ring<T>, task: T): Ring<T> {
    Ring(r.tasks + [task], r.regs + [INITIAL], r.cur)
  }

  /** The last task leaves; if it was running, the first runs. */
  function DropLast<T>(r: Ring<T>): Ring<T>
    requires RingOk(r) && r.regs != []
  {
    Ring(r.tasks[..|r.tasks| - 1], r.regs[..|r.regs| - 1], if r.cur == |r.regs| - 1 then 0 else r.cur)
  }

  ghost predicate AllUser(fs: seq<Frame>) {
    forall k :: 0 <= k < |fs| ==> FromUser(fs[k])
  }

  /** The task `k` places after task `c`, for up to one full round. */
  function Place(c: nat, k: nat, n: nat): nat
    requires c < n && k <= n
  {
    if c + k < n then c + k else c + k - n
  }

  /** How many places task `i` comes after task `c`. */
  function Distance(c: nat, i: nat, n: nat): (k: nat)
    requires c < n && i < n
    ensures k < n && Place(c, k, n) == i
    ensures forall j :: 0 <= j < n && Place(c, j, n) == i ==> j == k
  {
    if i >= c then i - c else i - c + n
  }

  lemma {:induction false} Remainder(x: int, n: nat, q: int, r: nat)
    requires r < n && x == q * n + r
    ensures x % n == r
  {
    var d := x / n - q;
    assert d * n == r - x % n;
    MultipleIsFar(d, n);
  }

  /** Counted forward through the list, around its end. */
  lemma {:induction false} DistanceIs(c: nat, i: nat, n: nat)
    requires c < n && i < n
    ensures Distance(c, i, n) == (i - c) % n
  {
    Remainder(i - c, n, if i >= c then 0 else -1, Distance(c, i, n));
  }

  /** After k ticks the task k places on runs. */
  lemma {:induction false} TurnAfter<T>(r: Ring<T>, fs: seq<Frame>)
    requires RingOk(r) && r.regs != [] && AllUser(fs) && |fs| <= |r.regs|
    ensures Ticks(r, fs).cur == Place(r.cur, |fs|, |r.regs|)
    decreases |fs|
  {
    if fs != [] {
      TurnAfter(Tick(r, fs[0]), fs[1..]);
    }
  }

  lemma {:induction false} TicksSplit<T>(r: Ring<T>, fs: seq<Frame>, k: nat)
    requires RingOk(r) && k <= |fs|
    ensures Ticks(r, fs) == Ticks(Ticks(r, fs[..k]), fs[k..])
    decreases k
  {
    if k > 0 {
      TicksSplit(Tick(r, fs[0]), fs[1..], k - 1);
      assert fs[..k][1..] == fs[1..][..k - 1];
      assert fs[1..][k - 1..] == fs[k..];
    }
  }

  /** A task that is at no point the running one keeps its registers, whatever ticks arrive. */
  lemma {:induction false} WaitingKept<T>(r: Ring<T>, fs: seq<Frame>, i: nat)
    requires RingOk(r) && i < |r.regs|
    requires forall k :: 0 <= k < |fs| ==> Ticks(r, fs[..k]).cur != i
    ensures Ticks(r, fs).regs[i] == r.regs[i]
    decreases |fs|
  {
    if fs != [] {
      var r', fs' := Tick(r, fs[0]), fs[1..];
      assert Ticks(r, fs[..0]).cur != i;
      forall k | 0 <= k < |fs'|
        ensures Ticks(r', fs'[..k]).cur != i
      {
        assert fs[..k + 1][0] == fs[0] && fs[..k + 1][1..] == fs'[..k];
        assert Ticks(r, fs[..k + 1]).cur != i;
      }
      WaitingKept(r', fs', i);
    }
  }

  /** One round of user-mode ticks: it ends with the task it began with, task `i` runs after exactly
      one number of ticks, and what is saved for it is the frame of the tick that ended its turn. */
  lemma {:induction false} RoundRobin<T>(r: Ring<T>, fs: seq<Frame>, i: nat)
    requires RingOk(r) && AllUser(fs) && |fs| == |r.regs| && i < |r.regs|
    ensures Ticks(r, fs).cur == r.cur
    ensures forall k :: 0 <= k < |fs| ==> (Ticks(r, fs[..k]).cur == i <==> k == Distance(r.cur, i, |fs|))
    ensures Ticks(r, fs).regs[i] == SavedFrom(fs[Distance(r.cur, i, |fs|)])
  {
    TurnAfter(r, fs);
    forall k | 0 <= k < |fs|
      ensures Ticks(r, fs[..k]).cur == i <==> k == Distance(r.cur, i, |fs|)
    {
      TurnAfter(r, fs[..k]);
    }
    var d := Distance(r.cur, i, |fs|);
    var s := Ticks(r, fs[..d]);
    TicksSplit(r, fs, d);
    assert Ticks(s, fs[d..]) == Ticks(Tick(s, fs[d]), fs[d + 1..]) by {
      assert fs[d..][0] == fs[d] && fs[d..][1..] == fs[d + 1..];
    }
    var t, rest := Tick(s, fs[d]), fs[d + 1..];
    forall k | 0 <= k < |rest|
      ensures Ticks(t, rest[..k]).cur != i
    {
      TurnAfter(t, rest[..k]);
    }
    WaitingKept(t, rest, i);
  }

  /** A preempted task comes back with the frame it was interrupted with, however long it waited. */
  lemma {:induction false} ResumesWhereItStopped<T>(r: Ring<T>, fs: seq<Frame>)
    requires RingOk(r) && |fs| > 0 && FromUser(fs[0]) && |r.regs| > 1
    requires forall k :: 1 <= k < |fs| ==> Ticks(r, fs[..k]).cur != r.cur
    ensures var saved, f := Ticks(r, fs).regs[r.cur], fs[0];
            && saved.edi == f.edi && saved.esi == f.esi && saved.ebp == f.ebp && saved.ebx == f.ebx && saved.edx == f.edx && saved.ecx == f.ecx
            && saved.eax == f.eax && saved.ip == f.ip && saved.cs == f.cs && saved.flags == f.flags && saved.esp == f.esp && saved.ss == f.ss
  {
    var r', fs' := Tick(r, fs[0]), fs[1..];
    forall k | 0 <= k < |fs'|
      ensures Ticks(r', fs'[..k]).cur != r.cur
    {
      assert fs[..k + 1][0] == fs[0] && fs[..k + 1][1..] == fs'[..k];
      assert Ticks(r, fs[..k + 1]).cur != r.cur;
    }
    WaitingKept(r', fs', r.cur);
  }

  // ---------------------------------------------------------------- whole runs

  datatype Event<T> = Timer(frame: Frame) | Spawn(task: T) | Exit(task: T)

  /** A new task is not in the list yet; only the last task leaves. */
  ghost predicate Possible<T>(r: Ring<T>, e: Event<T>) {
    && RingOk(r) && (e.Spawn? ==> e.task !in r.tasks)
    && (e.Exit? ==> r.tasks != [] && r.tasks[|r.tasks| - 1] == e.task)
  }

  ghost function React<T>(r: Ring<T>, e: Event<T>): Ring<T>
    requires Possible(r, e)
  {
    match e
    case Timer(f) => Tick(r, f)
    case Spawn(task) => Append(r, task)
    case Exit(_) => DropLast(r)
  }

  ghost predicate IsRun<T>(rs: seq<Ring<T>>, es: seq<Event<T>>) {
    && |rs| == |es| + 1
    && forall k :: 0 <= k < |es| ==> Follows(rs[k], es[k], rs[k + 1])
  }

  ghost predicate Follows<T>(r: Ring<T>, e: Event<T>, r': Ring<T>) {
    RingOk(r) ==> Possible(r, e) && r' == React(r, e)
  }

  /** The tasks spawned and not yet gone. */
  ghost function Alive<T>(es: seq<Event<T>>): set<T> {
    if es == [] then {}
    else
      var before := Alive(es[..|es| - 1]);
      match es[|es| - 1]
      case Timer(_) => before
      case Spawn(task) => before + {task}
      case Exit(task) => before - {task}
  }

  ghost predicate Different<T>(s: seq<T>) {
    forall i, j :: 0 <= i < j < |s| ==> s[i] != s[j]
  }

  /** The tasks of the ring are exactly `alive`, each once. */
  ghost predicate HoldsExactly<T>(r: Ring<T>, alive: set<T>) {
    RingOk(r) && Different(r.tasks) && alive == set t | t in r.tasks
  }

  lemma {:induction false} ReactHolds<T>(r: Ring<T>, e: Event<T>, alive: set<T>)
    requires HoldsExactly(r, alive) && Possible(r, e)
    ensures HoldsExactly(React(r, e), match e case Timer(_) => alive case Spawn(t) => alive + {t} case Exit(t) => alive - {t})
  {
    if e.Exit? {
      var front := r.tasks[..|r.tasks| - 1];
      assert r.tasks == front + [e.task];
      assert e.task !in front;
    }
  }

  /** In every run from an empty list, the ring holds exactly the tasks spawned and not yet gone, each
      once, and one of them is current exactly while there is one. */
  lemma {:induction false} RunKeeps<T>(rs: seq<Ring<T>>, es: seq<Event<T>>, k: nat)
    requires IsRun(rs, es) && rs[0] == Ring([], [], 0) && k <= |es|
    ensures HoldsExactly(rs[k], Alive(es[..k]))
    ensures rs[k].tasks != [] ==> rs[k].cur < |rs[k].tasks|
  {
    if k > 0 {
      RunKeeps(rs, es, k - 1);
      assert es[..k][..k - 1] == es[..k - 1];
      assert Follows(rs[k - 1], es[k - 1], rs[k - 1 + 1]);
      ReactHolds(rs[k - 1], es[k - 1], Alive(es[..k - 1]));
    }
  }

  // ---------------------------------------------------------------- the linked list

  class Task {
    const process: nat
    var registers: Registers
    var next: Task?
    var prev: Task?

    constructor (owner: nat)
      ensures process == owner && registers == INITIAL && next == null && prev == null
    {
      process := owner;
      registers := INITIAL;
      next := null;
      prev := null;
    }
  }

  function At(list: seq<Task>, i: int): Task? {
    if 0 <= i < |list| then list[i] else null
  }

  ghost predicate NextAt(list: seq<Task>, i: nat)
    requires i < |list|
    reads list`next
  {
    list[i].next == At(list, i + 1)
  }

  ghost predicate PrevAt(list: seq<Task>, i: nat)
    requires i < |list|
    reads list`prev
  {
    list[i].prev == At(list, i - 1)
  }

  /** The `next` links run through the list. */
  ghost predicate Forward(list: seq<Task>)
    reads list`next
  {
    forall i :: 0 <= i < |list| ==> NextAt(list, i)
  }

  ghost predicate Backward(list: seq<Task>)
    reads list`prev
  {
    forall i :: 0 <= i < |list| ==> PrevAt(list, i)
  }

  ghost function RegsOf(list: seq<Task>): (r: seq<Registers>)
    reads list
  {
    seq(|list|, i requires 0 <= i < |list| reads list => list[i].registers)
  }

  ghost function IndexOf(list: seq<Task>, t: Task): (i: nat)
    requires t in list
    ensures i < |list| && list[i] == t
  {
    var i :| 0 <= i < |list| && list[i] == t; i
  }

  lemma {:induction false} IndexIs(list: seq<Task>, i: nat)
    requires Different(list) && i < |list|
    ensures IndexOf(list, list[i]) == i
  {
  }

  /** The list without the task at `i`. */
  ghost function Without(list: seq<Task>, i: nat): seq<Task>
    requires i < |list|
  {
    list[..i] + list[i + 1..]
  }

  class TaskList {
    var head: Task?
    var tail: Task?
    var current: Task?
    var currentProcess: nat
    ghost var list: seq<Task>

    constructor ()
      ensures Valid() && list == []
    {
      head, tail, current, currentProcess, list := null, null, null, 0, [];
    }

    /** Head, forward links and current task: all that ticks look at. */
    ghost predicate Walkable()
      reads this, list
    {
      && Different(list) && Forward(list) && head == At(list, 0)
      && (if list == [] then current == null else current in list)
    }

    ghost predicate Valid()
      reads this, list
    {
      Walkable() && Backward(list) && tail == At(list, |list| - 1)
    }

    ghost function View(): Ring<Task>
      requires Walkable()
      reads this, list
    {
      Ring(list, RegsOf(list), if list == [] then 0 else IndexOf(list, current))
    }

    method NewTask(process: nat) returns (task: Task)
      requires Valid()
      modifies this, list
      ensures Valid() && fresh(task) && list == old(list) + [task] && task.process == process
      ensures View() == Append(old(View()), task)
      ensures task.registers == Registers(0, 0, 0, 0, 0, 0, 0, 0x400000, 0x1B, 0, 0x3FF000, 0x23)
      ensures currentProcess == old(currentProcess)
    {
      task := new Task(process);
      if head == null {
        head, tail, current := task, task, task;
        list := [task];
        assert RegsOf(list) == [INITIAL];
        return;
      }
      LinkLast(task);
    }

    /** Links a task behind the last one. */
    method LinkLast(task: Task)
      requires Valid() && list != [] && task !in list && task.next == null && task.registers == INITIAL
      modifies this`tail, this`list, list`next, task`prev
      ensures Valid() && list == old(list) + [task] && View() == Append(old(View()), task)
    {
      ghost var n, i := |list|, IndexOf(list, current);
      assert PrevAt(list, n - 1);
      tail.next := task;
      task.prev := tail;
      tail := task;
      list := list + [task];
      forall j | 0 <= j < n + 1
        ensures NextAt(list, j) && PrevAt(list, j)
      {
        assert j < n ==> old(NextAt(list, j)) && old(PrevAt(list, j));
      }
      IndexIs(list, i);
      assert RegsOf(list) == old(RegsOf(list)) + [INITIAL];
    }

    method GetNext() returns (task: Task?)
      requires Walkable() && current != null
      ensures list != [] && task == list[Next(View())]
      ensures var i := IndexOf(list, current); task == if i + 1 < |list| then list[i + 1] else list[0]
    {
      assert NextAt(list, IndexOf(list, current));
      if current.next == null {
        return head;
      }
      return current.next;
    }

    method SaveState(task: Task, f: Frame)
      modifies task`registers
      ensures task.registers == SavedFrom(f)
      ensures var r := task.registers;
              && r.edi == f.edi && r.esi == f.esi && r.ebp == f.ebp && r.ebx == f.ebx && r.edx == f.edx && r.ecx == f.ecx
              && r.eax == f.eax && r.ip == f.ip && r.cs == f.cs && r.flags == f.flags && r.esp == f.esp && r.ss == f.ss
    {
      task.registers := Registers(f.edi, f.esi, f.ebp, f.ebx, f.edx, f.ecx, f.eax, f.ip, f.cs, f.flags, f.esp, f.ss);
    }

    /** The timer interrupt: the registers to return to, or none to return where it came from. */
    method TimerTick(f: Frame) returns (r: Option<Registers>)
      requires Walkable()
      modifies this`current, this`currentProcess, list`registers
      ensures Walkable() && list == old(list) && View() == Tick(old(View()), f)
      ensures r.Some? <==> FromUser(f) && |list| > 1
      ensures r.Some? ==> list != [] && r.value == View().regs[View().cur] && currentProcess == list[View().cur].process
      ensures r.None? ==> current == old(current) && currentProcess == old(currentProcess)
      ensures f.cs == 0x1B && |list| > 1 ==> r.Some?
      ensures f.cs == 0x08 ==> r.None? && View() == old(View())
      ensures r.Some? ==>
                var saved := old(current).registers;
                && saved.edi == f.edi && saved.esi == f.esi && saved.ebp == f.ebp && saved.ebx == f.ebx && saved.edx == f.edx && saved.ecx == f.ecx
                && saved.eax == f.eax && saved.ip == f.ip && saved.cs == f.cs && saved.flags == f.flags && saved.esp == f.esp && saved.ss == f.ss
      ensures r.Some? ==> r.value == current.registers && current != old(current)
    {
      if current == null {
        return None;
      }
      if f.cs % 4 != 3 {
        return None;
      }
      SaveState(current, f);
      var next := GetNext();
      if next == null || next == current {
        return None;
      }
      current := next;
      currentProcess := next.process;
      return Some(next.registers);
    }

    /** The links, head and tail without the task at `i`; its own links stay. */
    method Unlink(task: Task, ghost i: nat)
      requires Valid() && i < |list| && list[i] == task
      modifies this`head, this`tail, this`list, list`next
      ensures list == Without(old(list), i) && Different(list) && Forward(list) && head == At(list, 0)
      ensures tail == At(list, |list| - 1) && task.next == At(list, i)
      ensures Backward(list) <==> i == |list|
    {
      ghost var n := |list|;
      assert NextAt(list, i) && PrevAt(list, i);
      if task.prev != null {
        task.prev.next := task.next;
      }
      if task == head {
        head := task.next;
      }
      if task == tail {
        tail := task.prev;
      }
      list := Without(list, i);
      forall j | 0 <= j < n - 1
        ensures NextAt(list, j)
      {
        assert j < i ==> old(NextAt(list, j));
        assert j >= i ==> old(NextAt(list, j + 1));
      }
      if i == n - 1 {
        forall j | 0 <= j < n - 1
          ensures PrevAt(list, j)
        {
          assert old(PrevAt(list, j));
        }
      } else {
        assert old(PrevAt(list, i + 1)) && !PrevAt(list, i);
      }
    }

    /** Unlinks a task. The forward list loses exactly that task, but its successor's back link is
        not repaired: the list stays valid exactly if the task was the last. */
    method Remove(task: Task)
      requires Valid() && task in list
      modifies this`head, this`tail, this`current, this`list, list`next
      ensures list == Without(old(list), IndexOf(old(list), task)) && Walkable()
      ensures Valid() <==> IndexOf(old(list), task) == |list|
      ensures current == if task != old(current) then old(current)
                         else At(list, if IndexOf(old(list), task) < |list| then IndexOf(old(list), task) else 0)
      ensures Valid() ==> View() == DropLast(old(View()))
    {
      ghost var i := IndexOf(list, task);
      Unlink(task, i);
      if task == current {
        if current.next == null {
          current := head;
        } else {
          current := current.next;
        }
      } else {
        assert old(list)[IndexOf(old(list), current)] in list;
      }
    }
  }
}
