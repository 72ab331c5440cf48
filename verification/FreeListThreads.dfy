/** The free list used by any number of threads, one step per access to shared memory.

    A thread takes the lock, runs the two assignments of its macro, and releases the lock.
    Other threads may take steps at any point in between: try for the lock, or overwrite
    blocks that are held, which needs no lock. */
module FreeListThreads {
  import opened FreeList

  datatype Option<+T> = None | Some(value: T)

  datatype Thread =
    | Idle
    | AllocEntered                      // lock taken
    | AllocTaken(ptr: nat)              // (_ptr) = (_free)
    | AllocLocated(ptr: nat, at: nat)   // (_free) read again, to be followed
    | AllocLoaded(ptr: nat, next: nat)  // *(void **)(_free) read
    | AllocPopped(ptr: nat)             // (_free) assigned
    | FreeCalled(ptr: nat)              // waiting for the lock
    | FreeEntered(ptr: nat)             // lock taken
    | FreeLoaded(ptr: nat, next: nat)   // (_free) read
    | FreeLinked(ptr: nat)              // *(void **)(_ptr) assigned
    | FreePushed                        // (_free) assigned

  datatype State = State(
    mem: seq<nat>, head: nat, lock: Option<nat>, threads: map<nat, Thread>, held: set<nat>)

  datatype Action =
    | LockAlloc(t: nat) | TakeHead(t: nat) | ReadHead(t: nat) | LoadNext(t: nat) | StoreHead(t: nat)
    | UnlockAlloc(t: nat)
    | CallFree(t: nat, b: nat) | LockFree(t: nat) | LoadHead(t: nat) | StoreLink(t: nat) | PushHead(t: nat)
    | UnlockFree(t: nat)
    | ClientWrite(b: nat, k: nat, v: nat)

  predicate At(s: State, a: Action)
    requires !a.ClientWrite?
  {
    a.t in s.threads &&
    var th := s.threads[a.t];
    match a
    case LockAlloc(_) => th.Idle? && s.lock == None
    case TakeHead(_) => th.AllocEntered?
    case ReadHead(_) => th.AllocTaken?
    case LoadNext(_) => th.AllocLocated?
    case StoreHead(_) => th.AllocLoaded?
    case UnlockAlloc(_) => th.AllocPopped?
    case CallFree(_, b) => th.Idle? && b in s.held
    case LockFree(_) => th.FreeCalled? && s.lock == None
    case LoadHead(_) => th.FreeEntered?
    case StoreLink(_) => th.FreeLoaded?
    case PushHead(_) => th.FreeLinked?
    case UnlockFree(_) => th.FreePushed?
  }

  /** The action is the thread's next one and does not access memory out of bounds or
      through a null pointer. Only held blocks are freed or written by clients. */
  predicate Enabled(p: Pool, s: State, a: Action) {
    match a
    case ClientWrite(b, k, v) => b in s.held && k < p.size && b + k < |s.mem|
    case LoadNext(t) => At(s, a) && s.threads[t].at != NULL && s.threads[t].at < |s.mem|
    case StoreLink(t) => At(s, a) && s.threads[t].ptr < |s.mem|
    case _ => At(s, a)
  }

  function Goto(s: State, t: nat, th: Thread): State {
    s.(threads := s.threads[t := th])
  }

  function Apply(p: Pool, s: State, a: Action): State
    requires Enabled(p, s, a)
  {
    match a
    case LockAlloc(t) => Goto(s, t, AllocEntered).(lock := Some(t))
    case TakeHead(t) => Goto(s, t, AllocTaken(s.head))
    case ReadHead(t) => Goto(s, t, AllocLocated(s.threads[t].ptr, s.head))
    case LoadNext(t) => Goto(s, t, AllocLoaded(s.threads[t].ptr, s.mem[s.threads[t].at]))
    case StoreHead(t) => Goto(s, t, AllocPopped(s.threads[t].ptr)).(head := s.threads[t].next)
    case UnlockAlloc(t) => Goto(s, t, Idle).(lock := None, held := s.held + {s.threads[t].ptr})
    case CallFree(t, b) => Goto(s, t, FreeCalled(b)).(held := s.held - {b})
    case LockFree(t) => Goto(s, t, FreeEntered(s.threads[t].ptr)).(lock := Some(t))
    case LoadHead(t) => Goto(s, t, FreeLoaded(s.threads[t].ptr, s.head))
    case StoreLink(t) =>
      Goto(s, t, FreeLinked(s.threads[t].ptr)).(mem := s.mem[s.threads[t].ptr := s.threads[t].next])
    case PushHead(t) => Goto(s, t, FreePushed).(head := s.threads[t].ptr)
    case UnlockFree(t) => Goto(s, t, Idle).(lock := None)
    case ClientWrite(b, k, v) => s.(mem := s.mem[b + k := v])
  }

  // ----- the atomic stack the threads implement

  datatype Event = Silent | Pop(t: nat, b: nat) | Push(t: nat, b: nat)

  /** What a step does to the atomic stack: a pop takes effect when the head is assigned
      its successor, a push when the head is assigned the block. */
  function EventOf(p: Pool, s: State, a: Action): Event
    requires Enabled(p, s, a)
  {
    match a
    case StoreHead(t) => Pop(t, s.threads[t].ptr)
    case PushHead(t) => Push(t, s.threads[t].ptr)
    case _ => Silent
  }

  /** The stack after an event, or `None` if a last-in-first-out stack does not allow it. */
  function Replay(stack: seq<nat>, e: Event): Option<seq<nat>> {
    match e
    case Silent => Some(stack)
    case Pop(_, b) => if stack != [] && stack[0] == b then Some(stack[1..]) else None
    case Push(_, b) => Some([b] + stack)
  }

  // ----- the invariant

  /** The block is in the thread's hands only: popped but not yet handed to the client, or
      given back but not yet pushed. */
  predicate Carries(th: Thread, b: nat) {
    match th
    case AllocPopped(ptr) => ptr == b
    case FreeCalled(ptr) => ptr == b
    case FreeEntered(ptr) => ptr == b
    case FreeLoaded(ptr, _) => ptr == b
    case FreeLinked(ptr) => ptr == b
    case _ => false
  }

  predicate InCritical(th: Thread) {
    !th.Idle? && !th.FreeCalled?
  }

  /** What a thread remembers of the list is still so. */
  predicate Current(s: State, th: Thread) {
    match th
    case AllocTaken(ptr) => ptr == s.head
    case AllocLocated(ptr, at) => ptr == s.head && at == s.head
    case AllocLoaded(ptr, next) => ptr == s.head && ptr != NULL && ptr < |s.mem| && next == s.mem[ptr]
    case FreeLoaded(_, next) => next == s.head
    case FreeLinked(ptr) => ptr < |s.mem| && s.mem[ptr] == s.head
    case _ => true
  }

  ghost predicate Exclusive(s: State) {
    && (forall t :: t in s.threads ==> (InCritical(s.threads[t]) <==> s.lock == Some(t)))
    && (forall t :: t in s.threads ==> Current(s, s.threads[t]))
    && (s.lock.Some? ==> s.lock.value in s.threads)
  }

  /** A block is somewhere: on the list, held, or in some thread's hands. */
  ghost predicate Placed(s: State, stack: seq<nat>, b: nat) {
    b in stack || b in s.held || exists t :: t in s.threads && Carries(s.threads[t], b)
  }

  /** Every block of the pool is in exactly one place: on the list, held by the clients, or
      in the hands of exactly one thread. */
  ghost predicate Conserved(p: Pool, s: State, stack: seq<nat>) {
    && (forall b :: b in stack ==> b in p.blocks && b !in s.held)
    && s.held <= p.blocks
    && (forall t, b :: t in s.threads && Carries(s.threads[t], b) ==>
          b in p.blocks && b !in stack && b !in s.held)
    && (forall t, t', b :: t in s.threads && t' in s.threads && t != t' && Carries(s.threads[t], b) ==>
          !Carries(s.threads[t'], b))
    && (forall b :: b in p.blocks ==> Placed(s, stack, b))
  }

  ghost predicate Inv(p: Pool, s: State, stack: seq<nat>) {
    && Laid(p, |s.mem|)
    && Chain(s.mem, s.head, stack)
    && Exclusive(s)
    && Conserved(p, s, stack)
  }

  ghost predicate Init(p: Pool, s: State, stack: seq<nat>) {
    && Laid(p, |s.mem|)
    && Chain(s.mem, s.head, stack)
    && s.lock == None
    && (forall t :: t in s.threads ==> s.threads[t] == Idle)
    && Partition(p, stack, s.held)
  }

  lemma InitInv(p: Pool, s: State, stack: seq<nat>)
    requires Init(p, s, stack)
    ensures Inv(p, s, stack)
  {
  }

  // ----- every step keeps it

  lemma HeadOnList(p: Pool, s: State, stack: seq<nat>)
    requires Inv(p, s, stack) && s.head != NULL
    ensures stack != [] && stack[0] == s.head && s.head in p.blocks && s.head !in s.held
  {
    assert stack[0] in stack;
  }

  /** A client's write changes no link: neither the list's nor one a thread is working on. */
  lemma WriteKeepsCurrent(p: Pool, s: State, stack: seq<nat>, a: Action, t: nat)
    requires Inv(p, s, stack) && a.ClientWrite? && Enabled(p, s, a) && t in s.threads
    ensures Current(Apply(p, s, a), s.threads[t])
  {
    var th := s.threads[t];
    assert Current(s, th);
    Separation(p, s.mem, a.b, a.k, a.v);
    if th.AllocLoaded? {
      HeadOnList(p, s, stack);
    } else if th.FreeLinked? {
      assert Carries(th, th.ptr);
    }
  }

  lemma StepExclusive(p: Pool, s: State, stack: seq<nat>, a: Action)
    requires Inv(p, s, stack) && Enabled(p, s, a)
    ensures Exclusive(Apply(p, s, a))
  {
    var s' := Apply(p, s, a);
    forall t | t in s'.threads
      ensures InCritical(s'.threads[t]) <==> s'.lock == Some(t)
      ensures Current(s', s'.threads[t])
    {
      assert t in s.threads;
      assert InCritical(s.threads[t]) <==> s.lock == Some(t);
      assert Current(s, s.threads[t]);
      if a.ClientWrite? {
        WriteKeepsCurrent(p, s, stack, a, t);
      }
    }
  }

  /** The chain after a step is the stack after the step's event. */
  lemma StepChain(p: Pool, s: State, stack: seq<nat>, a: Action)
    requires Inv(p, s, stack) && Enabled(p, s, a)
    ensures Replay(stack, EventOf(p, s, a)).Some?
    ensures var s' := Apply(p, s, a);
      |s'.mem| == |s.mem| && Chain(s'.mem, s'.head, Replay(stack, EventOf(p, s, a)).value)
  {
    var s' := Apply(p, s, a);
    match a
    case ClientWrite(b, k, v) =>
      Separation(p, s.mem, b, k, v);
      ChainFrame(s.mem, s'.mem, s.head, stack);
    case StoreHead(t) =>
      assert Current(s, s.threads[t]);
    case StoreLink(t) =>
      assert Carries(s.threads[t], s.threads[t].ptr);
      ChainFrame(s.mem, s'.mem, s.head, stack);
    case PushHead(t) =>
      assert Current(s, s.threads[t]);
      assert Carries(s.threads[t], s.threads[t].ptr);
      assert ([s.threads[t].ptr] + stack)[1..] == stack;
    case _ =>
  }

  lemma StepPlaced(p: Pool, s: State, stack: seq<nat>, a: Action, b: nat)
    requires Inv(p, s, stack) && Enabled(p, s, a) && b in p.blocks
    requires Replay(stack, EventOf(p, s, a)).Some?
    ensures Placed(Apply(p, s, a), Replay(stack, EventOf(p, s, a)).value, b)
  {
    var s' := Apply(p, s, a);
    assert Placed(s, stack, b);
    if t :| t in s.threads && Carries(s.threads[t], b) {
      if a.ClientWrite? || t != a.t || !(a.UnlockAlloc? || a.PushHead?) {
        assert Carries(s'.threads[t], b);
      }
    } else if a.StoreHead? {
      assert b in stack && b != s.threads[a.t].ptr ==> b in stack[1..];
      assert Carries(s'.threads[a.t], s.threads[a.t].ptr);
    } else if a.CallFree? {
      assert Carries(s'.threads[a.t], a.b);
    }
  }

  /** Whoever carries a block after a step carried it before, or has just popped it off the
      list, or has just been given it back by the clients. */
  lemma StepCarries(p: Pool, s: State, stack: seq<nat>, a: Action, t: nat, b: nat)
    requires Inv(p, s, stack) && Enabled(p, s, a)
    requires t in s.threads && Carries(Apply(p, s, a).threads[t], b)
    ensures Carries(s.threads[t], b)
         || (a == StoreHead(t) && stack != [] && b == stack[0] == s.threads[t].ptr)
         || (a == CallFree(t, b) && b in s.held)
  {
    if a == StoreHead(t) {
      assert Current(s, s.threads[t]);
    }
  }

  lemma StepCarriesAway(p: Pool, s: State, stack: seq<nat>, a: Action, t: nat, b: nat)
    requires Inv(p, s, stack) && Enabled(p, s, a)
    requires Replay(stack, EventOf(p, s, a)).Some?
    requires t in s.threads && Carries(Apply(p, s, a).threads[t], b)
    ensures b in p.blocks && b !in Replay(stack, EventOf(p, s, a)).value && b !in Apply(p, s, a).held
  {
    StepCarries(p, s, stack, a, t, b);
    ChainAcyclic(s.mem, s.head, stack);
    if a.PushHead? {
      assert Carries(s.threads[a.t], s.threads[a.t].ptr);
    } else if a.UnlockAlloc? {
      assert Carries(s.threads[a.t], s.threads[a.t].ptr);
    }
  }

  lemma StepCarriesOnce(p: Pool, s: State, stack: seq<nat>, a: Action, t: nat, t': nat, b: nat)
    requires Inv(p, s, stack) && Enabled(p, s, a)
    requires t in s.threads && t' in s.threads && t != t'
    requires Carries(Apply(p, s, a).threads[t], b)
    ensures !Carries(Apply(p, s, a).threads[t'], b)
  {
    StepCarries(p, s, stack, a, t, b);
    assert stack != [] ==> stack[0] in stack;
    if Carries(Apply(p, s, a).threads[t'], b) {
      StepCarries(p, s, stack, a, t', b);
    }
  }

  lemma StepHeld(p: Pool, s: State, stack: seq<nat>, a: Action)
    requires Inv(p, s, stack) && Enabled(p, s, a)
    requires Replay(stack, EventOf(p, s, a)).Some?
    ensures Apply(p, s, a).held <= p.blocks
    ensures forall b :: b in Replay(stack, EventOf(p, s, a)).value ==> b in p.blocks && b !in Apply(p, s, a).held
  {
    if a.PushHead? {
      assert Carries(s.threads[a.t], s.threads[a.t].ptr);
    } else if a.UnlockAlloc? {
      assert Carries(s.threads[a.t], s.threads[a.t].ptr);
    }
  }

  lemma StepConserved(p: Pool, s: State, stack: seq<nat>, a: Action)
    requires Inv(p, s, stack) && Enabled(p, s, a)
    requires Replay(stack, EventOf(p, s, a)).Some?
    ensures Conserved(p, Apply(p, s, a), Replay(stack, EventOf(p, s, a)).value)
  {
    var s' := Apply(p, s, a);
    var stack' := Replay(stack, EventOf(p, s, a)).value;
    StepHeld(p, s, stack, a);
    forall t, b | t in s'.threads && Carries(s'.threads[t], b)
      ensures b in p.blocks && b !in stack' && b !in s'.held
    {
      StepCarriesAway(p, s, stack, a, t, b);
    }
    forall t, t', b | t in s'.threads && t' in s'.threads && t != t' && Carries(s'.threads[t], b)
      ensures !Carries(s'.threads[t'], b)
    {
      StepCarriesOnce(p, s, stack, a, t, t', b);
    }
    forall b | b in p.blocks
      ensures Placed(s', stack', b)
    {
      StepPlaced(p, s, stack, a, b);
    }
  }

  /** One step of the threads is at most one step of the atomic stack. */
  lemma StepKeepsInv(p: Pool, s: State, stack: seq<nat>, a: Action)
    requires Inv(p, s, stack) && Enabled(p, s, a)
    ensures Replay(stack, EventOf(p, s, a)).Some?
    ensures Inv(p, Apply(p, s, a), Replay(stack, EventOf(p, s, a)).value)
  {
    StepChain(p, s, stack, a);
    StepExclusive(p, s, stack, a);
    StepConserved(p, s, stack, a);
  }

  // ----- whole runs

  predicate Legal(p: Pool, s: State, run: seq<Action>)
    decreases |run|
  {
    run == [] || (Enabled(p, s, run[0]) && Legal(p, Apply(p, s, run[0]), run[1..]))
  }

  function Final(p: Pool, s: State, run: seq<Action>): State
    requires Legal(p, s, run)
    decreases |run|
  {
    if run == [] then s else Final(p, Apply(p, s, run[0]), run[1..])
  }

  function History(p: Pool, s: State, run: seq<Action>): seq<Event>
    requires Legal(p, s, run)
    decreases |run|
  {
    if run == [] then [] else [EventOf(p, s, run[0])] + History(p, Apply(p, s, run[0]), run[1..])
  }

  function ReplayAll(stack: seq<nat>, events: seq<Event>): Option<seq<nat>>
    decreases |events|
  {
    if events == [] then Some(stack)
    else
      match Replay(stack, events[0])
      case None => None
      case Some(stack') => ReplayAll(stack', events[1..])
  }

  /** The events of any run, in order, are a history of a last-in-first-out stack, and the
      linked list at the end of the run is that stack. With `AllocTakesEffectOnce` and
      `FreeTakesEffectOnce`, which put one event of the caller inside each call, this is
      linearizability. */
  lemma {:induction false} RunRefinesStack(p: Pool, s: State, stack: seq<nat>, run: seq<Action>)
    requires Inv(p, s, stack) && Legal(p, s, run)
    ensures ReplayAll(stack, History(p, s, run)).Some?
    ensures Inv(p, Final(p, s, run), ReplayAll(stack, History(p, s, run)).value)
    decreases |run|
  {
    if run != [] {
      StepKeepsInv(p, s, stack, run[0]);
      RunRefinesStack(p, Apply(p, s, run[0]), Replay(stack, EventOf(p, s, run[0])).value, run[1..]);
      var h := History(p, Apply(p, s, run[0]), run[1..]);
      assert ([EventOf(p, s, run[0])] + h)[1..] == h;
    }
  }

  /** From an initial pool, every run ends with a list that ends in null, visits no block
      twice, and shares the pool with the clients and the threads without overlap. */
  lemma RunConserves(p: Pool, s: State, stack: seq<nat>, run: seq<Action>)
    requires Init(p, s, stack) && Legal(p, s, run)
    ensures exists stack' ::
      && Chain(Final(p, s, run).mem, Final(p, s, run).head, stack')
      && (forall i, j :: 0 <= i < j < |stack'| ==> stack'[i] != stack'[j])
      && Conserved(p, Final(p, s, run), stack')
  {
    InitInv(p, s, stack);
    RunRefinesStack(p, s, stack, run);
    var stack' := ReplayAll(stack, History(p, s, run)).value;
    ChainAcyclic(Final(p, s, run).mem, Final(p, s, run).head, stack');
  }

  lemma {:induction false} LegalConcat(p: Pool, s: State, x: seq<Action>, y: seq<Action>)
    requires Legal(p, s, x + y)
    ensures Legal(p, s, x) && Legal(p, Final(p, s, x), y)
    ensures Final(p, s, x + y) == Final(p, Final(p, s, x), y)
    decreases |x|
  {
    if x == [] {
      assert x + y == y;
    } else {
      assert (x + y)[1..] == x[1..] + y;
      LegalConcat(p, Apply(p, s, x[0]), x[1..], y);
    }
  }

  // ----- each call takes effect once, between its start and its end

  /** The events of one thread. */
  function Mine(events: seq<Event>, t: nat): seq<Event> {
    if events == [] then []
    else if !events[0].Silent? && events[0].t == t then [events[0]] + Mine(events[1..], t)
    else Mine(events[1..], t)
  }

  /** The thread is inside an allocation. */
  predicate Allocating(th: Thread) {
    th.AllocEntered? || th.AllocTaken? || th.AllocLocated? || th.AllocLoaded? || th.AllocPopped?
  }

  /** The thread is giving block `b` back. */
  predicate Freeing(th: Thread, b: nat) {
    match th
    case FreeCalled(ptr) => ptr == b
    case FreeEntered(ptr) => ptr == b
    case FreeLoaded(ptr, _) => ptr == b
    case FreeLinked(ptr) => ptr == b
    case FreePushed => true
    case _ => false
  }

  function PopsSoFar(t: nat, th: Thread): seq<Event> {
    if th.AllocPopped? then [Pop(t, th.ptr)] else []
  }

  function PushesSoFar(t: nat, th: Thread, b: nat): seq<Event> {
    if th.FreePushed? then [Push(t, b)] else []
  }

  /** Until the thread unlocks, its allocation has popped the block it is holding and
      nothing else, or nothing yet. */
  lemma {:induction false} AllocSoFar(p: Pool, s: State, run: seq<Action>, t: nat)
    requires Legal(p, s, run) && UnlockAlloc(t) !in run && t in s.threads && Allocating(s.threads[t])
    ensures t in Final(p, s, run).threads && Allocating(Final(p, s, run).threads[t])
    ensures PopsSoFar(t, s.threads[t]) + Mine(History(p, s, run), t) == PopsSoFar(t, Final(p, s, run).threads[t])
    decreases |run|
  {
    if run != [] {
      var a, s', rest := run[0], Apply(p, s, run[0]), run[1..];
      assert a in run && forall x :: x in rest ==> x in run;
      AllocSoFar(p, s', rest, t);
      var e, h := EventOf(p, s, a), History(p, s', rest);
      assert ([e] + h)[1..] == h;
      assert PopsSoFar(t, s'.threads[t]) == PopsSoFar(t, s.threads[t]) + Mine([e], t);
    }
  }

  /** Until the thread unlocks, its free has pushed the block it was called with, or
      nothing yet. */
  lemma {:induction false} FreeSoFar(p: Pool, s: State, run: seq<Action>, t: nat, b: nat)
    requires Legal(p, s, run) && UnlockFree(t) !in run && t in s.threads && Freeing(s.threads[t], b)
    ensures t in Final(p, s, run).threads && Freeing(Final(p, s, run).threads[t], b)
    ensures PushesSoFar(t, s.threads[t], b) + Mine(History(p, s, run), t)
         == PushesSoFar(t, Final(p, s, run).threads[t], b)
    decreases |run|
  {
    if run != [] {
      var a, s', rest := run[0], Apply(p, s, run[0]), run[1..];
      assert a in run && forall x :: x in rest ==> x in run;
      FreeSoFar(p, s', rest, t, b);
      var e, h := EventOf(p, s, a), History(p, s', rest);
      assert ([e] + h)[1..] == h;
      assert PushesSoFar(t, s'.threads[t], b) == PushesSoFar(t, s.threads[t], b) + Mine([e], t);
    }
  }

  /** The step that gives block `b` to the client. */
  predicate HandsOut(s: State, a: Action, b: nat) {
    a.UnlockAlloc? && a.t in s.threads && s.threads[a.t] == AllocPopped(b)
  }

  /** In any run, between a thread's taking the lock for an allocation and its next unlock,
      that thread has exactly one event: the pop of the block it then hands out. */
  lemma AllocTakesEffectOnce(p: Pool, s: State, before: seq<Action>, during: seq<Action>, t: nat)
    requires Legal(p, s, before + ([LockAlloc(t)] + (during + [UnlockAlloc(t)]))) && UnlockAlloc(t) !in during
    ensures Legal(p, s, before) && Enabled(p, Final(p, s, before), LockAlloc(t))
    ensures var entered := Apply(p, Final(p, s, before), LockAlloc(t));
      && Legal(p, entered, during)
      && exists b :: HandsOut(Final(p, entered, during), UnlockAlloc(t), b)
                  && Mine(History(p, entered, during), t) == [Pop(t, b)]
  {
    var rest := during + [UnlockAlloc(t)];
    LegalConcat(p, s, before, [LockAlloc(t)] + rest);
    assert ([LockAlloc(t)] + rest)[1..] == rest;
    var entered := Apply(p, Final(p, s, before), LockAlloc(t));
    LegalConcat(p, entered, during, [UnlockAlloc(t)]);
    AllocSoFar(p, entered, during, t);
    var end := Final(p, entered, during);
    assert Enabled(p, end, UnlockAlloc(t));
    assert HandsOut(end, UnlockAlloc(t), end.threads[t].ptr);
  }

  /** In any run, between a thread's call of free on a block and its next unlock, that
      thread has exactly one event: the push of that block. */
  lemma FreeTakesEffectOnce(p: Pool, s: State, before: seq<Action>, during: seq<Action>, t: nat, b: nat)
    requires Legal(p, s, before + ([CallFree(t, b)] + (during + [UnlockFree(t)]))) && UnlockFree(t) !in during
    ensures Legal(p, s, before) && Enabled(p, Final(p, s, before), CallFree(t, b))
    ensures var called := Apply(p, Final(p, s, before), CallFree(t, b));
      Legal(p, called, during) && Mine(History(p, called, during), t) == [Push(t, b)]
  {
    var rest := during + [UnlockFree(t)];
    LegalConcat(p, s, before, [CallFree(t, b)] + rest);
    assert ([CallFree(t, b)] + rest)[1..] == rest;
    var called := Apply(p, Final(p, s, before), CallFree(t, b));
    LegalConcat(p, called, during, [UnlockFree(t)]);
    FreeSoFar(p, called, during, t, b);
    assert Enabled(p, Final(p, called, during), UnlockFree(t));
  }

  // ----- no block is handed out twice

  /** A held block stays held until some thread calls free on it. */
  lemma {:induction false} HeldUntilFreed(p: Pool, s: State, run: seq<Action>, b: nat)
    requires Legal(p, s, run) && b in s.held
    requires forall a :: a in run && a.CallFree? ==> a.b != b
    ensures b in Final(p, s, run).held
    decreases |run|
  {
    if run != [] {
      assert run[0] in run;
      assert forall a :: a in run[1..] ==> a in run;
      HeldUntilFreed(p, Apply(p, s, run[0]), run[1..], b);
    }
  }

  /** Between two hand-outs of the same block, in any run, some thread called free on it. */
  lemma NoDoubleHandOut(p: Pool, s: State, stack: seq<nat>,
                        before: seq<Action>, first: Action, between: seq<Action>, second: Action, b: nat)
    requires Init(p, s, stack) && Legal(p, s, before + ([first] + (between + [second])))
    ensures Legal(p, s, before)
    ensures HandsOut(Final(p, s, before), first, b) ==>
      var held := Apply(p, Final(p, s, before), first);
      && Legal(p, held, between)
      && (HandsOut(Final(p, held, between), second, b) ==>
            exists a :: a in between && a.CallFree? && a.b == b)
  {
    LegalConcat(p, s, before, [first] + (between + [second]));
    var s1 := Final(p, s, before);
    InitInv(p, s, stack);
    RunRefinesStack(p, s, stack, before);
    var stack1 := ReplayAll(stack, History(p, s, before)).value;
    assert ([first] + (between + [second]))[1..] == between + [second];
    StepKeepsInv(p, s1, stack1, first);
    var s2 := Apply(p, s1, first);
    var stack2 := Replay(stack1, EventOf(p, s1, first)).value;
    LegalConcat(p, s2, between, [second]);
    RunRefinesStack(p, s2, stack2, between);
    if HandsOut(s1, first, b) && HandsOut(Final(p, s2, between), second, b)
       && forall a :: a in between && a.CallFree? ==> a.b != b {
      HeldUntilFreed(p, s2, between, b);
      assert Carries(Final(p, s2, between).threads[second.t], b);
      assert false;
    }
  }

  // ----- what clients store stays

  /** The value of the last client write to word `w` in the run, or `v` if there is none. */
  function LastWrite(run: seq<Action>, w: nat, v: nat): nat {
    if run == [] then v
    else LastWrite(run[1..], w, if run[0].ClientWrite? && run[0].b + run[0].k == w then run[0].v else v)
  }

  /** Some thread has called free on block `w` and has yet to write its link. */
  ghost predicate LinkPending(s: State, w: nat) {
    exists t :: t in s.threads && Pending(s.threads[t], w)
  }

  predicate Pending(th: Thread, w: nat) {
    match th
    case FreeCalled(ptr) => ptr == w
    case FreeEntered(ptr) => ptr == w
    case FreeLoaded(ptr, _) => ptr == w
    case _ => false
  }

  lemma StepMemory(p: Pool, s: State, a: Action, w: nat)
    requires Enabled(p, s, a) && w < |s.mem| && !LinkPending(s, w)
    requires !a.ClientWrite? && (a.CallFree? ==> a.b != w)
    ensures |Apply(p, s, a).mem| == |s.mem| && Apply(p, s, a).mem[w] == s.mem[w]
    ensures !LinkPending(Apply(p, s, a), w)
  {
    var s' := Apply(p, s, a);
    assert !Pending(s.threads[a.t], w);
    forall t | t in s'.threads
      ensures !Pending(s'.threads[t], w)
    {
      assert t in s.threads && !Pending(s.threads[t], w);
    }
  }

  /** Over any run, a word that is not the link word of a block being given back holds the
      last value a client wrote to it, or its first value if none did. No other step touches
      it: not another thread's allocation or free, not a write to any other word. */
  lemma {:induction false} WordKeepsClientValue(p: Pool, s: State, run: seq<Action>, w: nat)
    requires Legal(p, s, run) && w < |s.mem| && !LinkPending(s, w)
    requires forall a :: a in run && a.CallFree? ==> a.b != w
    ensures |Final(p, s, run).mem| == |s.mem|
    ensures Final(p, s, run).mem[w] == LastWrite(run, w, s.mem[w])
    decreases |run|
  {
    if run != [] {
      var a, s' := run[0], Apply(p, s, run[0]);
      assert a in run && forall x :: x in run[1..] ==> x in run;
      if a.ClientWrite? {
        assert s'.threads == s.threads;
      } else {
        StepMemory(p, s, a, w);
      }
      WordKeepsClientValue(p, s', run[1..], w);
    }
  }

  /** Clients free and write blocks of the pool only. */
  lemma {:induction false} ClientsStayInPool(p: Pool, s: State, stack: seq<nat>, run: seq<Action>)
    requires Inv(p, s, stack) && Legal(p, s, run)
    ensures forall a :: a in run && a.CallFree? ==> a.b in p.blocks
    ensures forall a :: a in run && a.ClientWrite? ==> a.b in p.blocks && a.k < p.size
    decreases |run|
  {
    if run != [] {
      StepKeepsInv(p, s, stack, run[0]);
      ClientsStayInPool(p, Apply(p, s, run[0]), Replay(stack, EventOf(p, s, run[0])).value, run[1..]);
      assert run == [run[0]] + run[1..];
    }
  }

  lemma PendingInPool(p: Pool, s: State, stack: seq<nat>, w: nat)
    requires Inv(p, s, stack) && LinkPending(s, w)
    ensures w in p.blocks && w !in s.held
  {
    var t :| t in s.threads && Pending(s.threads[t], w);
    assert Carries(s.threads[t], w);
  }

  /** Everything a client stored in a block it holds is there, for as long as nobody calls
      free on the block, whatever the other clients and threads do. */
  lemma HeldBlockKeepsContents(p: Pool, s: State, stack: seq<nat>, run: seq<Action>, b: nat, k: nat)
    requires Inv(p, s, stack) && Legal(p, s, run) && b in s.held && k < p.size
    requires forall a :: a in run && a.CallFree? ==> a.b != b
    ensures b + k < |s.mem| == |Final(p, s, run).mem|
    ensures Final(p, s, run).mem[b + k] == LastWrite(run, b + k, s.mem[b + k])
  {
    ClientsStayInPool(p, s, stack, run);
    assert b in p.blocks;
    if LinkPending(s, b + k) {
      PendingInPool(p, s, stack, b + k);
    }
    WordKeepsClientValue(p, s, run, b + k);
  }

  lemma {:induction false} NeverWritten(run: seq<Action>, w: nat, v: nat)
    requires forall a :: a in run && a.ClientWrite? ==> a.b + a.k != w
    ensures LastWrite(run, w, v) == v
  {
    if run != [] {
      assert run[0] in run && forall a :: a in run[1..] ==> a in run;
      NeverWritten(run[1..], w, v);
    }
  }

  /** Memory outside the pool never changes. */
  lemma OutsideUntouched(p: Pool, s: State, stack: seq<nat>, run: seq<Action>, w: nat)
    requires Inv(p, s, stack) && Legal(p, s, run) && w < |s.mem|
    requires forall b :: b in p.blocks ==> !(b <= w < b + p.size)
    ensures w < |Final(p, s, run).mem| && Final(p, s, run).mem[w] == s.mem[w]
  {
    ClientsStayInPool(p, s, stack, run);
    if LinkPending(s, w) {
      PendingInPool(p, s, stack, w);
    }
    WordKeepsClientValue(p, s, run, w);
    NeverWritten(run, w, s.mem[w]);
  }

  // ----- steps are there to be taken

  /** The list is empty exactly when every block of the pool is held or in a thread's
      hands, so an allocation can only meet an empty list in that case. */
  lemma EmptyIffAllOut(p: Pool, s: State, stack: seq<nat>)
    requires Inv(p, s, stack)
    ensures s.head == NULL <==>
      forall b :: b in p.blocks ==> b in s.held || exists t :: t in s.threads && Carries(s.threads[t], b)
  {
    if s.head == NULL {
      forall b | b in p.blocks
        ensures b in s.held || exists t :: t in s.threads && Carries(s.threads[t], b)
      {
        assert Placed(s, stack, b);
      }
    } else {
      HeadOnList(p, s, stack);
    }
  }

  /** The thread's next action, whatever the others do. */
  function NextAction(s: State, t: nat): Action
    requires t in s.threads && InCritical(s.threads[t])
  {
    match s.threads[t]
    case AllocEntered => TakeHead(t)
    case AllocTaken(_) => ReadHead(t)
    case AllocLocated(_, _) => LoadNext(t)
    case AllocLoaded(_, _) => StoreHead(t)
    case AllocPopped(_) => UnlockAlloc(t)
    case FreeEntered(_) => LoadHead(t)
    case FreeLoaded(_, _) => StoreLink(t)
    case FreeLinked(_) => PushHead(t)
    case _ => UnlockFree(t)
  }

  /** A thread holding the lock can always go on and never reads or writes out of bounds,
      with one exception: an allocation goes through a null pointer exactly when every block
      is already held or in some thread's hands. */
  lemma LockHolderProceeds(p: Pool, s: State, stack: seq<nat>, t: nat)
    requires Inv(p, s, stack) && t in s.threads && InCritical(s.threads[t])
    ensures Enabled(p, s, NextAction(s, t)) <==>
      !(s.threads[t].AllocLocated? && forall b :: b in p.blocks ==>
          b in s.held || exists t' :: t' in s.threads && Carries(s.threads[t'], b))
  {
    EmptyIffAllOut(p, s, stack);
    var th := s.threads[t];
    assert Current(s, th);
    if th.FreeLoaded? {
      assert Carries(s.threads[t], th.ptr) && th.ptr in p.blocks;
      assert th.ptr + p.size <= |s.mem|;
    } else if th.AllocLocated? && s.head != NULL {
      HeadOnList(p, s, stack);
    }
  }

  /** A free lock can be taken by any thread that wants it, whatever is held and whatever is
      on the list. */
  lemma FreeLockIsTaken(p: Pool, s: State, t: nat)
    requires s.lock == None && t in s.threads
    ensures s.threads[t].Idle? ==> Enabled(p, s, LockAlloc(t))
    ensures s.threads[t].FreeCalled? ==> Enabled(p, s, LockFree(t))
  {
  }

  /** Clients are never held up: an idle thread can call free on any held block, and any
      word of a held block can be overwritten with any value at any time. */
  lemma ClientsProceed(p: Pool, s: State, stack: seq<nat>, t: nat, b: nat, k: nat, v: nat)
    requires Inv(p, s, stack) && b in s.held
    ensures t in s.threads && s.threads[t].Idle? ==> Enabled(p, s, CallFree(t, b))
    ensures k < p.size ==> Enabled(p, s, ClientWrite(b, k, v))
  {
    assert b in p.blocks && b + p.size <= |s.mem|;
  }

  /** A step moves its own thread only, and threads neither come nor go. */
  lemma StepIsLocal(p: Pool, s: State, a: Action, t: nat)
    requires Enabled(p, s, a)
    ensures Apply(p, s, a).threads.Keys == s.threads.Keys
    ensures t in s.threads && (a.ClientWrite? || a.t != t) ==> Apply(p, s, a).threads[t] == s.threads[t]
  {
  }

  /** How many steps a thread has left before it gives up the lock. */
  function StepsLeft(th: Thread): nat {
    match th
    case AllocEntered => 5
    case AllocTaken(_) => 4
    case AllocLocated(_, _) => 3
    case AllocLoaded(_, _) => 2
    case AllocPopped(_) => 1
    case FreeEntered(_) => 4
    case FreeLoaded(_, _) => 3
    case FreeLinked(_) => 2
    case FreePushed => 1
    case _ => 0
  }

  /** Each step of the lock holder brings it one nearer the end of its call, where it gives
      up the lock; no step of anyone else sets it back. */
  lemma CriticalSectionEnds(p: Pool, s: State, stack: seq<nat>, t: nat, a: Action)
    requires Inv(p, s, stack) && t in s.threads && InCritical(s.threads[t]) && Enabled(p, s, a)
    ensures a == NextAction(s, t) ==>
      var s' := Apply(p, s, a);
      && StepsLeft(s'.threads[t]) == StepsLeft(s.threads[t]) - 1
      && (s'.lock == None <==> StepsLeft(s'.threads[t]) == 0)
    ensures a != NextAction(s, t) ==>
      t in Apply(p, s, a).threads && Apply(p, s, a).threads[t] == s.threads[t]
  {
    assert InCritical(s.threads[t]) <==> s.lock == Some(t);
  }

  /** No run gets stuck: in every reachable state some thread can step, unless the thread
      holding the lock is about to follow a null head, which happens only when every block
      is held or in a thread's hands. */
  lemma RunNeverStuck(p: Pool, s: State, stack: seq<nat>, run: seq<Action>)
    requires Init(p, s, stack) && Legal(p, s, run) && s.threads.Keys != {}
    ensures var f := Final(p, s, run);
      || (exists a :: Enabled(p, f, a) && !a.ClientWrite?)
      || (exists t :: t in f.threads && f.threads[t] == AllocLocated(NULL, NULL)
            && forall b :: b in p.blocks ==>
                 b in f.held || exists t' :: t' in f.threads && Carries(f.threads[t'], b))
  {
    InitInv(p, s, stack);
    RunRefinesStack(p, s, stack, run);
    KeysKept(p, s, run);
    var f := Final(p, s, run);
    var stack' := ReplayAll(stack, History(p, s, run)).value;
    if f.lock.Some? {
      var t := f.lock.value;
      assert t in f.threads && InCritical(f.threads[t]);
      LockHolderProceeds(p, f, stack', t);
      EmptyIffAllOut(p, f, stack');
      assert Current(f, f.threads[t]);
      if !Enabled(p, f, NextAction(f, t)) {
        assert f.threads[t] == AllocLocated(NULL, NULL);
      } else {
        assert !NextAction(f, t).ClientWrite?;
      }
    } else {
      var t :| t in f.threads;
      assert !InCritical(f.threads[t]);
      FreeLockIsTaken(p, f, t);
      assert Enabled(p, f, LockAlloc(t)) || Enabled(p, f, LockFree(t));
    }
  }

  lemma {:induction false} KeysKept(p: Pool, s: State, run: seq<Action>)
    requires Legal(p, s, run)
    ensures Final(p, s, run).threads.Keys == s.threads.Keys
    decreases |run|
  {
    if run != [] {
      StepIsLocal(p, s, run[0], 0);
      KeysKept(p, Apply(p, s, run[0]), run[1..]);
    }
  }

  /** Runs are all the sequences of enabled steps: a run can be continued by any step
      enabled in its last state, and by no other. */
  lemma {:induction false} RunExtends(p: Pool, s: State, run: seq<Action>, a: Action)
    requires Legal(p, s, run)
    ensures Legal(p, s, run + [a]) <==> Enabled(p, Final(p, s, run), a)
    ensures Legal(p, s, run + [a]) ==> Final(p, s, run + [a]) == Apply(p, Final(p, s, run), a)
    decreases |run|
  {
    if run == [] {
      assert [] + [a] == [a];
    } else {
      assert (run + [a])[1..] == run[1..] + [a];
      RunExtends(p, Apply(p, s, run[0]), run[1..], a);
    }
  }

  // ----- every pool has its initial states

  /** Memory with the blocks of `stack` linked in that order. */
  function Linked(mem: seq<nat>, stack: seq<nat>): (m: seq<nat>)
    requires forall i :: 0 <= i < |stack| ==> stack[i] < |mem|
    ensures |m| == |mem|
  {
    if stack == [] then mem
    else Linked(mem, stack[1..])[stack[0] := if |stack| == 1 then NULL else stack[1]]
  }

  lemma {:induction false} LinkedChain(mem: seq<nat>, stack: seq<nat>)
    requires forall i :: 0 <= i < |stack| ==> stack[i] < |mem| && stack[i] != NULL
    requires forall i, j :: 0 <= i < j < |stack| ==> stack[i] != stack[j]
    ensures Chain(Linked(mem, stack), if stack == [] then NULL else stack[0], stack)
  {
    if stack != [] {
      var rest := stack[1..];
      LinkedChain(mem, rest);
      ChainFrame(Linked(mem, rest), Linked(mem, stack), if rest == [] then NULL else rest[0], rest);
    }
  }

  /** However a pool is laid out, whichever of its blocks are held, in whatever order the
      others are listed and whichever threads there are, there is such an initial state. */
  lemma InitialStates(p: Pool, mem: seq<nat>, stack: seq<nat>, held: set<nat>, ts: set<nat>) returns (s: State)
    requires Laid(p, |mem|) && Partition(p, stack, held)
    requires forall i, j :: 0 <= i < j < |stack| ==> stack[i] != stack[j]
    ensures Init(p, s, stack) && s.held == held && s.threads.Keys == ts && |s.mem| == |mem|
  {
    forall i | 0 <= i < |stack|
      ensures stack[i] < |mem| && stack[i] != NULL
    {
      assert stack[i] in p.blocks && stack[i] + p.size <= |mem|;
    }
    LinkedChain(mem, stack);
    s := State(Linked(mem, stack), if stack == [] then NULL else stack[0], None, map t | t in ts :: Idle, held);
  }
}
