/**
 * The socket table under concurrency: any number of threads, interleaved at the granularity of the
 * table's mutex, with malloc, free and the kernel's descriptor allocation as steps of their own.
 *
 * Pointers leave the critical sections, addresses are reused by malloc and descriptors by the kernel.
 * Touching memory that is not allocated, or unlinking or freeing a state that is not linked, still
 * linked, gone, or by now some other socket's, sets the fault flag; the main result is that no run sets it.
 */
module TableProtocol {
  import opened Buckets
  import opened Sequences

  type Tid = nat
  type Fd = nat
  type Ptr = nat

  /** Where a thread is between two atomic steps. */
  datatype Pc =
    | Idle
    | Opened(fd: Fd)                          // the kernel returned fd, the state is not allocated yet
    | Filled(fd: Fd, p: Ptr)                  // allocated, not in the table yet
    | Found(fd: Fd, p: Ptr, closing: bool)    // _lookup returned p, the mutex is released
    | Missing(fd: Fd, closing: bool)          // _lookup returned NULL
    | Unlinked(fd: Fd, p: Ptr, closing: bool) // LIST_REMOVE done, free still to come
    | Closing(fd: Fd)                         // about to call the kernel's close

  datatype State = State(
    open: set<Fd>,            // descriptors the kernel has handed out
    live: map<Ptr, Fd>,       // allocated states and their fd fields
    buckets: seq<seq<Ptr>>,   // the linked states
    pcs: map<Tid, Pc>,
    fault: bool)

  function PcOf(s: State, t: Tid): Pc {
    if t in s.pcs then s.pcs[t] else Idle
  }

  function Init(): State {
    State({}, map[], seq(NUM_BUCKETS, _ => []), map[], false)
  }

  datatype Action =
    | Open(t: Tid, fd: Fd)             // socket() of an MPTCP stream
    | OpenOther(t: Tid, fd: Fd)        // socket() of any other kind
    | Malloc(t: Tid, p: Ptr)
    | MallocFails(t: Tid)
    | Insert(t: Tid)
    | Lookup(t: Tid, fd: Fd, closing: bool)
    | Use(t: Tid)                      // reading state->fd between lookup and the decision
    | Keep(t: Tid)                     // the call ends without releasing the state
    | Unlink(t: Tid)
    | Free(t: Tid)
    | Miss(t: Tid)
    | Close(t: Tid)

  /** No thread is inside a call on fd. */
  ghost predicate Unused(s: State, fd: Fd) {
    forall t :: t in s.pcs ==> s.pcs[t] == Idle || s.pcs[t].fd != fd
  }

  // ----- _lookup's search

  datatype SearchResult = Hit(p: Ptr) | NotThere | Touched

  /** The loop over one bucket: every state up to the match is read. */
  function Search(live: map<Ptr, Fd>, ns: seq<Ptr>, fd: Fd): SearchResult {
    if ns == [] then NotThere
    else if ns[0] !in live then Touched
    else if live[ns[0]] == fd then Hit(ns[0])
    else Search(live, ns[1..], fd)
  }

  // ----- Steps

  ghost predicate Enabled(s: State, a: Action) {
    match a
    case Open(t, fd) => PcOf(s, t) == Idle && fd !in s.open
    case OpenOther(t, fd) => PcOf(s, t) == Idle && fd !in s.open
    case Malloc(t, p) => PcOf(s, t).Opened? && p !in s.live
    case MallocFails(t) => PcOf(s, t).Opened?
    case Insert(t) => PcOf(s, t).Filled?
    case Lookup(t, fd, _) => PcOf(s, t) == Idle && fd in s.open && Unused(s, fd)
    case Use(t) => PcOf(s, t).Found?
    case Keep(t) => PcOf(s, t).Found? && !PcOf(s, t).closing
    case Unlink(t) => PcOf(s, t).Found?
    case Free(t) => PcOf(s, t).Unlinked?
    case Miss(t) => PcOf(s, t).Missing?
    case Close(t) => PcOf(s, t).Closing?
  }

  function Goto(s: State, t: Tid, pc: Pc): State {
    s.(pcs := s.pcs[t := pc])
  }

  function After(fd: Fd, closing: bool): Pc {
    if closing then Closing(fd) else Idle
  }

  /** The bucket a live state is linked in, or past the end. */
  function Home(s: State, p: Ptr): nat {
    if p in s.live && Hash(s.live[p]) < |s.buckets| && p in s.buckets[Hash(s.live[p])]
    then Hash(s.live[p]) else |s.buckets|
  }

  predicate Tracked(s: State, p: Ptr) {
    Home(s, p) < |s.buckets|
  }

  function Drop(ns: seq<Ptr>, p: Ptr): (r: seq<Ptr>)
    ensures forall q :: q in r <==> q in ns && q != p
  {
    if ns == [] then [] else if ns[0] == p then Drop(ns[1..], p) else [ns[0]] + Drop(ns[1..], p)
  }

  function Next(s: State, a: Action): State
    requires Enabled(s, a) && |s.buckets| == NUM_BUCKETS
  {
    match a
    case Open(t, fd) => Goto(s.(open := s.open + {fd}), t, Opened(fd))
    case OpenOther(t, fd) => s.(open := s.open + {fd})
    case Malloc(t, p) => Goto(s.(live := s.live[p := PcOf(s, t).fd]), t, Filled(PcOf(s, t).fd, p))
    case MallocFails(t) => Goto(s, t, Idle)
    case Insert(t) =>
      var pc := PcOf(s, t);
      var b := Hash(pc.fd);
      Goto(s.(buckets := s.buckets[b := [pc.p] + s.buckets[b]], fault := s.fault || pc.p !in s.live), t, Idle)
    case Lookup(t, fd, closing) =>
      (match Search(s.live, s.buckets[Hash(fd)], fd)
       case Hit(p) => Goto(s, t, Found(fd, p, closing))
       case NotThere => Goto(s, t, Missing(fd, closing))
       case Touched => s.(fault := true))
    case Use(t) => s.(fault := s.fault || PcOf(s, t).p !in s.live || s.live[PcOf(s, t).p] != PcOf(s, t).fd)
    case Keep(t) => Goto(s, t, Idle)
    case Unlink(t) =>
      var pc := PcOf(s, t);
      if !Tracked(s, pc.p) || s.live[pc.p] != pc.fd then s.(fault := true)
      else
        var b := Home(s, pc.p);
        Goto(s.(buckets := s.buckets[b := Drop(s.buckets[b], pc.p)]), t, Unlinked(pc.fd, pc.p, pc.closing))
    case Free(t) =>
      var pc := PcOf(s, t);
      if pc.p !in s.live || s.live[pc.p] != pc.fd || Tracked(s, pc.p) then s.(fault := true)
      else Goto(s.(live := s.live - {pc.p}), t, After(pc.fd, pc.closing))
    case Miss(t) => Goto(s, t, After(PcOf(s, t).fd, PcOf(s, t).closing))
    case Close(t) => Goto(s.(open := s.open - {PcOf(s, t).fd}), t, Idle)
  }

  // ----- The invariant

  /** Every bucket lists live states that hash to it, each once. */
  ghost predicate TableOk(s: State) {
    && |s.buckets| == NUM_BUCKETS
    && (forall b, p :: 0 <= b < NUM_BUCKETS && p in s.buckets[b] ==> p in s.live && Hash(s.live[p]) == b)
    && (forall b :: 0 <= b < NUM_BUCKETS ==> Distinct(s.buckets[b]))
  }

  ghost predicate FdTracked(s: State, fd: Fd) {
    exists p :: Tracked(s, p) && s.live[p] == fd
  }

  /** Every tracked descriptor is open and has exactly one state. */
  ghost predicate TrackedOk(s: State) {
    && (forall p :: Tracked(s, p) ==> s.live[p] in s.open)
    && (forall p, q :: Tracked(s, p) && Tracked(s, q) && s.live[p] == s.live[q] ==> p == q)
  }

  /** What a thread may rely on at each place. */
  ghost predicate ThreadOk(s: State, pc: Pc) {
    match pc
    case Idle => true
    case Opened(fd) => fd in s.open && !FdTracked(s, fd)
    case Filled(fd, p) => fd in s.open && !FdTracked(s, fd) && p in s.live && s.live[p] == fd
    case Found(fd, p, _) => fd in s.open && Tracked(s, p) && s.live[p] == fd
    case Missing(fd, _) => fd in s.open && !FdTracked(s, fd)
    case Unlinked(fd, p, _) => fd in s.open && !FdTracked(s, fd) && p in s.live && s.live[p] == fd
    case Closing(fd) => fd in s.open && !FdTracked(s, fd)
  }

  ghost predicate ThreadsOk(s: State) {
    && (forall t :: t in s.pcs ==> ThreadOk(s, s.pcs[t]))
    && (forall t, u :: t in s.pcs && u in s.pcs && t != u && s.pcs[t] != Idle && s.pcs[u] != Idle
          ==> s.pcs[t].fd != s.pcs[u].fd)
  }

  predicate Holds(pc: Pc, p: Ptr) {
    (pc.Filled? || pc.Unlinked?) && pc.p == p
  }

  /** Every allocated state is linked, or some thread is about to link or free it: nothing leaks. */
  ghost predicate NoLeak(s: State) {
    forall p :: p in s.live && !Tracked(s, p) ==> exists t :: t in s.pcs && Holds(s.pcs[t], p)
  }

  ghost predicate Inv(s: State) {
    !s.fault && TableOk(s) && TrackedOk(s) && ThreadsOk(s) && NoLeak(s)
  }

  // ----- Proof, one kind of step at a time

  lemma {:induction false} SearchFinds(live: map<Ptr, Fd>, ns: seq<Ptr>, fd: Fd)
    requires forall p :: p in ns ==> p in live
    ensures Search(live, ns, fd) != Touched
    ensures Search(live, ns, fd).Hit? ==> Search(live, ns, fd).p in ns && live[Search(live, ns, fd).p] == fd
    ensures Search(live, ns, fd).NotThere? ==> forall p :: p in ns ==> live[p] != fd
  {
    if ns != [] && live[ns[0]] != fd {
      SearchFinds(live, ns[1..], fd);
    }
  }

  lemma {:induction false} DropDistinct(ns: seq<Ptr>, p: Ptr)
    requires Distinct(ns)
    ensures Distinct(Drop(ns, p))
  {
    if ns != [] {
      DropDistinct(ns[1..], p);
      assert ns[0] !in ns[1..];
    }
  }

  /** Between s and r only state p and descriptor fd, which belong together, have changed. */
  ghost predicate Frame(s: State, r: State, fd: Fd, p: Ptr) {
    && (forall q :: q != p ==> (Tracked(r, q) <==> Tracked(s, q)) && (q in r.live <==> q in s.live))
    && (forall q :: q != p && q in s.live && q in r.live ==> r.live[q] == s.live[q])
    && (p in s.live ==> s.live[p] == fd) && (p in r.live ==> r.live[p] == fd)
    && r.open == s.open
  }

  lemma TrackedIsLive(s: State)
    ensures forall q :: Tracked(s, q) ==> q in s.live
  {
  }

  lemma FramedThread(s: State, r: State, fd: Fd, p: Ptr, pc: Pc)
    requires Frame(s, r, fd, p) && ThreadOk(s, pc) && pc != Idle && pc.fd != fd
    ensures ThreadOk(r, pc)
  {
    TrackedIsLive(s);
    TrackedIsLive(r);
    hide Tracked;
  }

  /** One thread has taken a step on its own state; the rest of the invariant is untouched. */
  lemma OwnStep(s: State, r: State, t: Tid, fd: Fd, p: Ptr)
    requires Inv(s) && !r.fault && TableOk(r) && TrackedOk(r) && Frame(s, r, fd, p)
    requires t in s.pcs && t in r.pcs && r.pcs == s.pcs[t := r.pcs[t]] && s.pcs[t] != Idle && s.pcs[t].fd == fd
    requires ThreadOk(r, r.pcs[t]) && (r.pcs[t] == Idle || r.pcs[t].fd == fd)
    requires p in r.live && !Tracked(r, p) ==> Holds(r.pcs[t], p)
    requires forall q :: q != p ==> !Holds(s.pcs[t], q)
    ensures Inv(r)
  {
    hide TableOk, Tracked, TrackedOk;
    forall u | u in r.pcs ensures ThreadOk(r, r.pcs[u]) {
      if u != t && s.pcs[u] != Idle {
        assert ThreadOk(s, s.pcs[u]);
        FramedThread(s, r, fd, p, s.pcs[u]);
      }
    }
    hide ThreadOk, Frame;
    forall q | q in r.live && !Tracked(r, q) ensures exists u :: u in r.pcs && Holds(r.pcs[u], q) {
      if q == p {
        assert t in r.pcs && Holds(r.pcs[t], p);
      } else {
        FrameBack(s, r, fd, p, q);
        var u :| u in s.pcs && Holds(s.pcs[u], q);
        assert u in r.pcs && Holds(r.pcs[u], q);
      }
    }
  }

  lemma FrameBack(s: State, r: State, fd: Fd, p: Ptr, q: Ptr)
    requires Frame(s, r, fd, p) && q != p && q in r.live && !Tracked(r, q)
    ensures q in s.live && !Tracked(s, q)
  {
  }

  /** Steps that move one thread and touch neither table, memory nor kernel. */
  lemma MoveOnly(s: State, t: Tid, pc: Pc)
    requires Inv(s) && ThreadOk(s, pc) && !PcOf(s, t).Filled? && !PcOf(s, t).Unlinked?
    requires pc != Idle ==> forall u :: u in s.pcs && u != t ==> s.pcs[u] == Idle || s.pcs[u].fd != pc.fd
    ensures Inv(Goto(s, t, pc))
  {
    var r := Goto(s, t, pc);
    assert forall p :: Tracked(r, p) <==> Tracked(s, p);
    assert TableOk(r) && TrackedOk(r);
    hide TableOk, Tracked, TrackedOk;
    forall u | u in r.pcs ensures ThreadOk(r, r.pcs[u]) {
      assert ThreadOk(s, if u == t then pc else s.pcs[u]);
    }
    hide ThreadOk, FdTracked;
    forall p | p in r.live && !Tracked(r, p) ensures exists u :: u in r.pcs && Holds(r.pcs[u], p) {
      var u :| u in s.pcs && Holds(s.pcs[u], p);
      assert u in r.pcs && Holds(r.pcs[u], p);
    }
  }

  lemma LookupStep(s: State, t: Tid, fd: Fd, closing: bool)
    requires Inv(s) && Enabled(s, Lookup(t, fd, closing))
    ensures Inv(Next(s, Lookup(t, fd, closing)))
    ensures var pc := PcOf(Next(s, Lookup(t, fd, closing)), t);
            if FdTracked(s, fd) then pc.Found? && Tracked(s, pc.p) && s.live[pc.p] == fd else pc == Missing(fd, closing)
  {
    var ns := s.buckets[Hash(fd)];
    SearchFinds(s.live, ns, fd);
    match Search(s.live, ns, fd) {
      case Hit(p) =>
        assert Tracked(s, p);
        MoveOnly(s, t, Found(fd, p, closing));
      case NotThere =>
        assert !FdTracked(s, fd);
        MoveOnly(s, t, Missing(fd, closing));
    }
  }

  lemma OpenStep(s: State, t: Tid, fd: Fd)
    requires Inv(s) && Enabled(s, Open(t, fd))
    ensures Inv(Next(s, Open(t, fd))) && Next(s, Open(t, fd)).open == s.open + {fd}
  {
    var r := s.(open := s.open + {fd});
    OpenOtherStep(s, t, fd);
    forall u | u in s.pcs && u != t ensures s.pcs[u] == Idle || s.pcs[u].fd != fd {
      assert ThreadOk(s, s.pcs[u]);
    }
    assert !FdTracked(r, fd);
    MoveOnly(r, t, Opened(fd));
  }

  lemma OpenOtherStep(s: State, t: Tid, fd: Fd)
    requires Inv(s) && fd !in s.open
    ensures Inv(s.(open := s.open + {fd})) && !FdTracked(s.(open := s.open + {fd}), fd)
  {
    var r := s.(open := s.open + {fd});
    assert forall p :: Tracked(r, p) <==> Tracked(s, p);
    forall u | u in r.pcs ensures ThreadOk(r, r.pcs[u]) {
      assert ThreadOk(s, s.pcs[u]);
    }
    forall p | p in r.live && !Tracked(r, p) ensures exists u :: u in r.pcs && Holds(r.pcs[u], p) {
      var u :| u in s.pcs && Holds(s.pcs[u], p);
      assert u in r.pcs && Holds(r.pcs[u], p);
    }
  }

  lemma MallocTable(s: State, t: Tid, p: Ptr)
    requires Inv(s) && Enabled(s, Malloc(t, p))
    ensures var r := Next(s, Malloc(t, p));
            !r.fault && TableOk(r) && forall q :: Tracked(r, q) <==> Tracked(s, q)
  {
    assert ThreadOk(s, PcOf(s, t));
  }

  lemma MallocFrame(s: State, t: Tid, p: Ptr)
    requires Inv(s) && Enabled(s, Malloc(t, p))
    ensures var r := Next(s, Malloc(t, p));
            Frame(s, r, PcOf(s, t).fd, p) && TrackedOk(r) && t in r.pcs && ThreadOk(r, r.pcs[t]) && p in r.live
  {
    MallocTable(s, t, p);
    assert ThreadOk(s, PcOf(s, t));
    TrackedIsLive(s);
    hide TableOk, Tracked, Home, Drop, NoLeak, ThreadsOk;
  }

  lemma MallocStep(s: State, t: Tid, p: Ptr)
    requires Inv(s) && Enabled(s, Malloc(t, p))
    ensures Inv(Next(s, Malloc(t, p)))
  {
    var r := Next(s, Malloc(t, p));
    MallocTable(s, t, p);
    MallocFrame(s, t, p);
    hide TableOk, Tracked, Frame, TrackedOk, ThreadOk, ThreadsOk, NoLeak;
    OwnStep(s, r, t, PcOf(s, t).fd, p);
  }

  lemma InsertTable(s: State, t: Tid)
    requires Inv(s) && Enabled(s, Insert(t))
    ensures var r := Next(s, Insert(t));
            !r.fault && TableOk(r) && forall q :: Tracked(r, q) <==> Tracked(s, q) || q == PcOf(s, t).p
  {
    assert ThreadOk(s, PcOf(s, t));
    assert PcOf(s, t).p !in s.buckets[Hash(PcOf(s, t).fd)];
  }

  lemma InsertStep(s: State, t: Tid)
    requires Inv(s) && Enabled(s, Insert(t))
    ensures Inv(Next(s, Insert(t)))
    ensures Tracked(Next(s, Insert(t)), PcOf(s, t).p) && Next(s, Insert(t)).live[PcOf(s, t).p] == PcOf(s, t).fd
  {
    var r := Next(s, Insert(t));
    var pc := PcOf(s, t);
    InsertTable(s, t);
    assert ThreadOk(s, pc);
    TrackedIsLive(s);
    hide TableOk, Tracked, Home, Drop;
    OwnStep(s, r, t, pc.fd, pc.p);
  }

  lemma UnlinkTable(s: State, t: Tid)
    requires Inv(s) && Enabled(s, Unlink(t))
    ensures var r := Next(s, Unlink(t));
            !r.fault && TableOk(r) && forall q :: Tracked(r, q) <==> Tracked(s, q) && q != PcOf(s, t).p
  {
    assert ThreadOk(s, PcOf(s, t));
    DropDistinct(s.buckets[Home(s, PcOf(s, t).p)], PcOf(s, t).p);
  }

  /** A thread releases the state it looked up: it is linked until this step and not after it. */
  lemma UnlinkStep(s: State, t: Tid)
    requires Inv(s) && Enabled(s, Unlink(t))
    ensures Inv(Next(s, Unlink(t)))
    ensures Tracked(s, PcOf(s, t).p) && !Tracked(Next(s, Unlink(t)), PcOf(s, t).p)
  {
    var r := Next(s, Unlink(t));
    var pc := PcOf(s, t);
    UnlinkTable(s, t);
    assert ThreadOk(s, pc);
    TrackedIsLive(s);
    hide TableOk, Tracked, Home, Drop;
    OwnStep(s, r, t, pc.fd, pc.p);
  }

  lemma FreeTable(s: State, t: Tid)
    requires Inv(s) && Enabled(s, Free(t))
    ensures var r := Next(s, Free(t));
            !r.fault && TableOk(r) && forall q :: Tracked(r, q) <==> Tracked(s, q)
  {
    assert ThreadOk(s, PcOf(s, t));
  }

  lemma FreeStep(s: State, t: Tid)
    requires Inv(s) && Enabled(s, Free(t))
    ensures Inv(Next(s, Free(t)))
    ensures PcOf(s, t).p in s.live && PcOf(s, t).p !in Next(s, Free(t)).live
  {
    var r := Next(s, Free(t));
    var pc := PcOf(s, t);
    FreeTable(s, t);
    assert ThreadOk(s, pc);
    TrackedIsLive(s);
    hide TableOk, Tracked, Home, Drop;
    assert Frame(s, r, pc.fd, pc.p) && TrackedOk(r) && ThreadOk(r, r.pcs[t]);
    hide Frame, TrackedOk, ThreadOk, ThreadsOk, NoLeak;
    OwnStep(s, r, t, pc.fd, pc.p);
  }

  lemma CloseStep(s: State, t: Tid)
    requires Inv(s) && Enabled(s, Close(t))
    ensures Inv(Next(s, Close(t)))
    ensures var fd, r := PcOf(s, t).fd, Next(s, Close(t));
            r.open == s.open - {fd} && !FdTracked(r, fd) && PcOf(r, t) == Idle
  {
    var fd := PcOf(s, t).fd;
    assert ThreadOk(s, PcOf(s, t));
    MoveOnly(s, t, Idle);
    NobodyOn(s, t);
    CloseUnused(Goto(s, t, Idle), fd);
  }

  lemma NobodyOn(s: State, t: Tid)
    requires Inv(s) && t in s.pcs && s.pcs[t] != Idle
    ensures Unused(Goto(s, t, Idle), s.pcs[t].fd)
    ensures forall fd :: FdTracked(Goto(s, t, Idle), fd) <==> FdTracked(s, fd)
  {
    assert forall p :: Tracked(Goto(s, t, Idle), p) <==> Tracked(s, p);
  }

  /** The kernel may take back a descriptor that is neither tracked nor in use. */
  lemma CloseUnused(s: State, fd: Fd)
    requires Inv(s) && Unused(s, fd) && !FdTracked(s, fd)
    ensures Inv(s.(open := s.open - {fd}))
  {
    var r := s.(open := s.open - {fd});
    assert forall q :: Tracked(r, q) <==> Tracked(s, q);
    hide Tracked;
    forall u | u in r.pcs ensures ThreadOk(r, r.pcs[u]) {
      assert ThreadOk(s, s.pcs[u]);
    }
    hide ThreadOk;
    forall q | q in r.live && !Tracked(r, q) ensures exists u :: u in r.pcs && Holds(r.pcs[u], q) {
      var u :| u in s.pcs && Holds(s.pcs[u], q);
      assert u in r.pcs && Holds(r.pcs[u], q);
    }
  }

  lemma StepKeepsInv(s: State, a: Action)
    requires Inv(s) && Enabled(s, a)
    ensures Inv(Next(s, a))
  {
    hide Search, Tracked;
    match a {
      case Open(t, fd) => OpenStep(s, t, fd);
      case OpenOther(t, fd) => OpenOtherStep(s, t, fd);
      case Malloc(t, p) => MallocStep(s, t, p);
      case Insert(t) => InsertStep(s, t);
      case Lookup(t, fd, closing) => LookupStep(s, t, fd, closing);
      case Use(t) => UseStep(s, t);
      case Unlink(t) => UnlinkStep(s, t);
      case Free(t) => FreeStep(s, t);
      case Close(t) => CloseStep(s, t);
      case MallocFails(t) => MoveOnly(s, t, Idle);
      case Keep(t) => MoveOnly(s, t, Idle);
      case Miss(t) =>
        assert ThreadOk(s, PcOf(s, t));
        MoveOnly(s, t, After(PcOf(s, t).fd, PcOf(s, t).closing));
    }
  }

  lemma UseStep(s: State, t: Tid)
    requires Inv(s) && PcOf(s, t).Found?
    ensures Next(s, Use(t)) == s
  {
    assert ThreadOk(s, PcOf(s, t));
  }

  // ----- Runs

  ghost predicate ValidRun(s: State, run: seq<Action>)
    decreases |run|
  {
    run != [] ==> |s.buckets| == NUM_BUCKETS && Enabled(s, run[0]) && ValidRun(Next(s, run[0]), run[1..])
  }

  /** The state a run ends in. */
  function Exec(s: State, run: seq<Action>): State
    requires ValidRun(s, run)
    decreases |run|
  {
    if run == [] then s else Exec(Next(s, run[0]), run[1..])
  }

  lemma InitInv()
    ensures Inv(Init())
  {
  }

  lemma {:induction false} ExecKeepsInv(s: State, run: seq<Action>)
    requires Inv(s) && ValidRun(s, run)
    ensures Inv(Exec(s, run))
    decreases |run|
  {
    if run != [] {
      StepKeepsInv(s, run[0]);
      ExecKeepsInv(Next(s, run[0]), run[1..]);
    }
  }

  /**
   * Memory safety over every run: no thread ever reads, unlinks or frees a state it must not, every tracked
   * descriptor is open and has exactly one state, and no state leaks.
   */
  lemma TableIsSafe(run: seq<Action>)
    requires ValidRun(Init(), run)
    ensures var s := Exec(Init(), run);
            && !s.fault
            && (forall p :: Tracked(s, p) ==> s.live[p] in s.open)
            && (forall p, q :: Tracked(s, p) && Tracked(s, q) && s.live[p] == s.live[q] ==> p == q)
            && NoLeak(s)
  {
    InitInv();
    ExecKeepsInv(Init(), run);
  }

  /** Whether thread t unlinks in the run, or ends a call that kept its state. */
  predicate Releases(run: seq<Action>, t: Tid) {
    exists i :: 0 <= i < |run| && (run[i] == Unlink(t) || run[i] == Keep(t))
  }

  /**
   * A pointer returned by _lookup stays linked, with its descriptor, until the very thread that got it
   * unlinks it or ends its call, whatever the other threads do meanwhile.
   */
  lemma {:induction false} LookedUpStaysLinked(s: State, run: seq<Action>, t: Tid)
    requires Inv(s) && ValidRun(s, run) && PcOf(s, t).Found? && !Releases(run, t)
    ensures var r := Exec(s, run);
            PcOf(r, t) == PcOf(s, t) && Tracked(r, PcOf(s, t).p) && r.live[PcOf(s, t).p] == PcOf(s, t).fd
    decreases |run|
  {
    hide TableOk, TrackedOk, Tracked;
    if run != [] {
      var n := Next(s, run[0]);
      StepKeepsInv(s, run[0]);
      assert run[0] != Unlink(t) && run[0] != Keep(t);
      assert PcOf(n, t) == PcOf(s, t);
      assert forall i :: 0 <= i < |run[1..]| ==> run[1..][i] == run[i + 1];
      LookedUpStaysLinked(n, run[1..], t);
    } else {
      assert ThreadOk(s, PcOf(s, t));
    }
  }

  /** _lookup is exact in every reachable state: it finds the state of a tracked descriptor, and only that. */
  lemma LookupIsExact(run: seq<Action>, t: Tid, fd: Fd, closing: bool)
    requires ValidRun(Init(), run) && Enabled(Exec(Init(), run), Lookup(t, fd, closing))
    ensures var s := Exec(Init(), run);
            |s.buckets| == NUM_BUCKETS &&
            var pc := PcOf(Next(s, Lookup(t, fd, closing)), t);
            if FdTracked(s, fd) then pc.Found? && Tracked(s, pc.p) && s.live[pc.p] == fd else pc == Missing(fd, closing)
  {
    InitInv();
    ExecKeepsInv(Init(), run);
    LookupStep(Exec(Init(), run), t, fd, closing);
  }

  // ----- Whole calls, with nothing in between

  /** One thread's call on fd from its lookup on: a tracked state is unlinked and freed, and close goes on to close. */
  function Release(t: Tid, fd: Fd, closing: bool, tracked: bool): seq<Action> {
    [Lookup(t, fd, closing)] + (if tracked then [Unlink(t), Free(t)] else [Miss(t)]) + if closing then [Close(t)] else []
  }

  lemma RunStep(s: State, a: Action, run: seq<Action>)
    requires |s.buckets| == NUM_BUCKETS && Enabled(s, a) && ValidRun(Next(s, a), run)
    ensures ValidRun(s, [a] + run) && Exec(s, [a] + run) == Exec(Next(s, a), run)
  {
    hide Next, Enabled;
    assert ([a] + run)[1..] == run;
  }

  /** After the lookup the thread holds the tracked state, or nothing. */
  lemma LookedUp(s: State, t: Tid, fd: Fd, closing: bool)
    requires Inv(s) && Enabled(s, Lookup(t, fd, closing))
    ensures var r := Next(s, Lookup(t, fd, closing));
            && Inv(r) && r.open == s.open && (FdTracked(r, fd) <==> FdTracked(s, fd))
            && PcOf(r, t) != Idle && PcOf(r, t).fd == fd
            && if FdTracked(s, fd) then PcOf(r, t).Found? && PcOf(r, t).closing == closing
               else PcOf(r, t) == Missing(fd, closing)
  {
    LookupStep(s, t, fd, closing);
    SearchFinds(s.live, s.buckets[Hash(fd)], fd);
    hide TableOk, TrackedOk, ThreadsOk, NoLeak;
  }

  /** Unlinking and freeing a looked-up state ends the call, or goes on to close, with the descriptor untracked. */
  lemma FoundReleases(s: State, t: Tid)
    requires Inv(s) && PcOf(s, t).Found?
    ensures ValidRun(s, [Unlink(t), Free(t)])
    ensures var pc, r := PcOf(s, t), Exec(s, [Unlink(t), Free(t)]);
            Inv(r) && PcOf(r, t) == After(pc.fd, pc.closing) && r.open == s.open && !FdTracked(r, pc.fd)
  {
    UnlinkStep(s, t);
    hide Inv, Next, Enabled, FdTracked, Tracked, ValidRun, Exec;
    var u := Next(s, Unlink(t));
    UnlinkedNext(s, t);
    FreeStep(u, t);
    var r := Next(u, Free(t));
    FreedNext(u, t);
    BucketsThere(s);
    BucketsThere(u);
    hide Inv, Next, Enabled, FdTracked, Tracked, ValidRun, Exec;
    NothingRuns(r);
    RunStep(u, Free(t), []);
    RunStep(s, Unlink(t), [Free(t)]);
    assert [Unlink(t)] + [Free(t)] == [Unlink(t), Free(t)] && [Free(t)] + [] == [Free(t)];
  }

  lemma BucketsThere(s: State)
    requires Inv(s)
    ensures |s.buckets| == NUM_BUCKETS
  {
  }

  lemma UnlinkedNext(s: State, t: Tid)
    requires Inv(s) && PcOf(s, t).Found?
    ensures var pc, r := PcOf(s, t), Next(s, Unlink(t));
            Enabled(s, Unlink(t)) && PcOf(r, t) == Unlinked(pc.fd, pc.p, pc.closing) && r.open == s.open
  {
    assert ThreadOk(s, PcOf(s, t));
  }

  lemma FreedNext(s: State, t: Tid)
    requires Inv(s) && PcOf(s, t).Unlinked?
    ensures var pc, r := PcOf(s, t), Next(s, Free(t));
            Enabled(s, Free(t)) && PcOf(r, t) == After(pc.fd, pc.closing) && r.open == s.open && !FdTracked(r, pc.fd)
  {
    assert ThreadOk(s, PcOf(s, t));
    FreeTable(s, t);
    TrackedIsLive(s);
    hide TableOk, Tracked, ThreadsOk, NoLeak;
  }

  lemma MissedNext(s: State, t: Tid)
    requires Inv(s) && PcOf(s, t).Missing?
    ensures var pc, r := PcOf(s, t), Next(s, Miss(t));
            && Enabled(s, Miss(t)) && Inv(r) && PcOf(r, t) == After(pc.fd, pc.closing)
            && r.open == s.open && !FdTracked(r, pc.fd)
  {
    assert ThreadOk(s, PcOf(s, t));
    StepKeepsInv(s, Miss(t));
    assert forall p :: Tracked(Next(s, Miss(t)), p) <==> Tracked(s, p);
    hide Tracked;
  }

  /**
   * A call that gives up its state, run through: afterwards the descriptor has no state, and it is open exactly if
   * the call was not close.
   */
  lemma ReleaseCompletes(s: State, t: Tid, fd: Fd, closing: bool)
    requires Inv(s) && PcOf(s, t) == Idle && fd in s.open && Unused(s, fd)
    ensures ValidRun(s, Release(t, fd, closing, FdTracked(s, fd)))
    ensures var r := Exec(s, Release(t, fd, closing, FdTracked(s, fd)));
            Inv(r) && PcOf(r, t) == Idle && !FdTracked(r, fd) && r.open == if closing then s.open - {fd} else s.open
  {
    var a := Lookup(t, fd, closing);
    assert Enabled(s, a);
    hide Inv, Next, Enabled, ValidRun, Exec, FdTracked, Unused;
    LookedUp(s, t, fd, closing);
    BucketsThere(s);
    var m := Next(s, a);
    BucketsThere(m);
    var middle := if FdTracked(s, fd) then [Unlink(t), Free(t)] else [Miss(t)];
    if FdTracked(s, fd) {
      FoundReleases(m, t);
    } else {
      MissedNext(m, t);
      NothingRuns(Next(m, Miss(t)));
      RunStep(m, Miss(t), []);
      assert [Miss(t)] + [] == [Miss(t)];
    }
    var e := Exec(m, middle);
    RunStep(s, a, middle);
    if closing {
      BucketsThere(e);
      CloseEnds(e, t);
      RunConcat(s, [a] + middle, [Close(t)]);
    } else {
      assert [a] + middle + [] == [a] + middle;
    }
  }

  lemma NothingRuns(s: State)
    ensures ValidRun(s, []) && Exec(s, []) == s
  {
  }

  lemma CloseEnds(s: State, t: Tid)
    requires Inv(s) && PcOf(s, t).Closing?
    ensures ValidRun(s, [Close(t)])
    ensures var r := Exec(s, [Close(t)]);
            Inv(r) && PcOf(r, t) == Idle && !FdTracked(r, PcOf(s, t).fd) && r.open == s.open - {PcOf(s, t).fd}
  {
    CloseStep(s, t);
    BucketsThere(s);
    NothingRuns(Next(s, Close(t)));
    assert Enabled(s, Close(t));
    hide Inv, Next, Enabled, FdTracked;
    RunStep(s, Close(t), []);
    assert [Close(t)] + [] == [Close(t)];
  }

  lemma {:induction false} RunConcat(s: State, run: seq<Action>, more: seq<Action>)
    requires ValidRun(s, run) && ValidRun(Exec(s, run), more)
    ensures ValidRun(s, run + more) && Exec(s, run + more) == Exec(Exec(s, run), more)
    decreases |run|
  {
    hide Next, Enabled;
    if run == [] {
      assert run + more == more;
    } else {
      RunConcat(Next(s, run[0]), run[1..], more);
      assert (run + more)[1..] == run[1..] + more;
    }
  }

  lemma OpenedNext(s: State, t: Tid, fd: Fd)
    requires Inv(s) && Enabled(s, Open(t, fd))
    ensures var r := Next(s, Open(t, fd));
            Inv(r) && PcOf(r, t) == Opened(fd) && r.open == s.open + {fd} && r.live == s.live
  {
    OpenStep(s, t, fd);
  }

  lemma MallocFailed(s: State, t: Tid)
    requires Inv(s) && PcOf(s, t).Opened?
    ensures var r := Next(s, MallocFails(t));
            && Enabled(s, MallocFails(t)) && Inv(r) && PcOf(r, t) == Idle
            && r.open == s.open && !FdTracked(r, PcOf(s, t).fd)
  {
    StepKeepsInv(s, MallocFails(t));
    assert ThreadOk(s, PcOf(s, t));
    assert forall q :: Tracked(Next(s, MallocFails(t)), q) <==> Tracked(s, q);
    hide Tracked, TableOk, NoLeak;
  }

  lemma FilledNext(s: State, t: Tid, p: Ptr)
    requires Inv(s) && PcOf(s, t).Opened? && p !in s.live
    ensures var r := Next(s, Malloc(t, p));
            && Enabled(s, Malloc(t, p)) && Inv(r) && PcOf(r, t) == Filled(PcOf(s, t).fd, p)
            && r.open == s.open && Enabled(r, Insert(t))
  {
    MallocStep(s, t, p);
  }

  lemma InsertedNext(s: State, t: Tid)
    requires Inv(s) && PcOf(s, t).Filled?
    ensures var pc, r := PcOf(s, t), Next(s, Insert(t));
            Inv(r) && PcOf(r, t) == Idle && r.open == s.open && Tracked(r, pc.p) && r.live[pc.p] == pc.fd
  {
    InsertStep(s, t);
  }

  /** socket run through while malloc gives memory: the new descriptor is open and has a state. */
  lemma SocketTracks(s: State, t: Tid, fd: Fd, p: Ptr)
    requires Inv(s) && PcOf(s, t) == Idle && fd !in s.open && p !in s.live
    ensures var run := [Open(t, fd)] + ([Malloc(t, p)] + ([Insert(t)] + []));
            ValidRun(s, run) &&
            var r := Exec(s, run);
            Inv(r) && PcOf(r, t) == Idle && r.open == s.open + {fd} && Tracked(r, p) && r.live[p] == fd
  {
    assert Enabled(s, Open(t, fd));
    hide Inv, Next, Enabled, Tracked, ValidRun, Exec;
    OpenedNext(s, t, fd);
    BucketsThere(s);
    var o := Next(s, Open(t, fd));
    BucketsThere(o);
    FilledNext(o, t, p);
    var m := Next(o, Malloc(t, p));
    BucketsThere(m);
    InsertedNext(m, t);
    NothingRuns(Next(m, Insert(t)));
    RunStep(m, Insert(t), []);
    RunStep(o, Malloc(t, p), [Insert(t)] + []);
    RunStep(s, Open(t, fd), [Malloc(t, p)] + ([Insert(t)] + []));
  }

  /** And while it does not: open, without a state. */
  lemma SocketUntracked(s: State, t: Tid, fd: Fd)
    requires Inv(s) && PcOf(s, t) == Idle && fd !in s.open
    ensures var run := [Open(t, fd)] + ([MallocFails(t)] + []);
            ValidRun(s, run) &&
            var r := Exec(s, run);
            Inv(r) && PcOf(r, t) == Idle && r.open == s.open + {fd} && !FdTracked(r, fd)
  {
    assert Enabled(s, Open(t, fd));
    hide Inv, Next, Enabled, FdTracked, ValidRun, Exec;
    OpenedNext(s, t, fd);
    BucketsThere(s);
    var o := Next(s, Open(t, fd));
    BucketsThere(o);
    MallocFailed(o, t);
    NothingRuns(Next(o, MallocFails(t)));
    RunStep(o, MallocFails(t), []);
    RunStep(s, Open(t, fd), [MallocFails(t)] + []);
  }

  /** A socket of another kind gets no state either. */
  lemma OtherSocketUntracked(s: State, t: Tid, fd: Fd)
    requires Inv(s) && PcOf(s, t) == Idle && fd !in s.open
    ensures ValidRun(s, [OpenOther(t, fd)])
    ensures var r := Exec(s, [OpenOther(t, fd)]); Inv(r) && r.open == s.open + {fd} && !FdTracked(r, fd) && r.pcs == s.pcs
  {
    OpenOtherStep(s, t, fd);
    BucketsThere(s);
    NothingRuns(Next(s, OpenOther(t, fd)));
    hide Inv, FdTracked;
    RunStep(s, OpenOther(t, fd), []);
    assert [OpenOther(t, fd)] + [] == [OpenOther(t, fd)];
  }

  /** A call that looks its state up, reads it and keeps it changes nothing. */
  lemma KeepingCall(s: State, t: Tid, fd: Fd)
    requires Inv(s) && PcOf(s, t) == Idle && fd in s.open && Unused(s, fd) && FdTracked(s, fd)
    ensures var run := [Lookup(t, fd, false)] + ([Use(t)] + ([Keep(t)] + []));
            ValidRun(s, run) &&
            var r := Exec(s, run);
            Inv(r) && PcOf(r, t) == Idle && r == s.(pcs := r.pcs) && FdTracked(r, fd)
  {
    var a := Lookup(t, fd, false);
    assert Enabled(s, a);
    LookedUp(s, t, fd, false);
    FoundNext(s, t, fd);
    hide Inv, Next, Enabled, ValidRun, Exec, FdTracked, Unused;
    BucketsThere(s);
    var m := Next(s, a);
    BucketsThere(m);
    UsedNext(m, t);
    NothingRuns(Next(m, Keep(t)));
    RunStep(m, Keep(t), []);
    RunStep(m, Use(t), [Keep(t)] + []);
    RunStep(s, a, [Use(t)] + ([Keep(t)] + []));
    SameTracked(s, Next(m, Keep(t)), fd);
  }

  lemma FoundNext(s: State, t: Tid, fd: Fd)
    requires Inv(s) && Enabled(s, Lookup(t, fd, false)) && PcOf(Next(s, Lookup(t, fd, false)), t).Found?
    ensures var r := Next(s, Lookup(t, fd, false)); r == s.(pcs := r.pcs)
  {
  }

  /** Reading a looked-up state faults nowhere and moves nothing. */
  lemma UsedNext(s: State, t: Tid)
    requires Inv(s) && PcOf(s, t).Found? && !PcOf(s, t).closing
    ensures Enabled(s, Use(t)) && Next(s, Use(t)) == s && Enabled(s, Keep(t))
    ensures var r := Next(s, Keep(t)); Inv(r) && PcOf(r, t) == Idle && r == s.(pcs := r.pcs)
  {
    assert ThreadOk(s, PcOf(s, t));
    StepKeepsInv(s, Keep(t));
    TrackedIsLive(s);
    hide TableOk, TrackedOk, ThreadsOk, NoLeak;
  }

  lemma SameTracked(s: State, r: State, fd: Fd)
    requires r == s.(pcs := r.pcs)
    ensures FdTracked(r, fd) <==> FdTracked(s, fd)
  {
    assert forall p :: Tracked(r, p) <==> Tracked(s, p);
  }

  // ----- Faults

  /** A freed state stands in the bucket before any live one of the descriptor. */
  ghost predicate MeetsFreed(s: State, ns: seq<Ptr>, fd: Fd) {
    exists i :: 0 <= i < |ns| && ns[i] !in s.live && forall j :: 0 <= j < i ==> ns[j] in s.live && s.live[ns[j]] != fd
  }

  lemma {:induction false} SearchTouches(s: State, ns: seq<Ptr>, fd: Fd)
    ensures Search(s.live, ns, fd) == Touched <==> MeetsFreed(s, ns, fd)
  {
    if ns != [] && ns[0] in s.live {
      SearchTouches(s, ns[1..], fd);
      if MeetsFreed(s, ns[1..], fd) && s.live[ns[0]] != fd {
        var i :| 0 <= i < |ns[1..]| && ns[1..][i] !in s.live
                 && forall j :: 0 <= j < i ==> ns[1..][j] in s.live && s.live[ns[1..][j]] != fd;
        assert ns[i + 1] !in s.live;
        forall j | 0 <= j < i + 1 ensures ns[j] in s.live && s.live[ns[j]] != fd {
          if j > 0 { assert ns[j] == ns[1..][j - 1]; }
        }
      }
      if MeetsFreed(s, ns, fd) {
        var i :| 0 <= i < |ns| && ns[i] !in s.live && forall j :: 0 <= j < i ==> ns[j] in s.live && s.live[ns[j]] != fd;
        assert ns[1..][i - 1] !in s.live;
        assert forall j :: 0 <= j < i - 1 ==> ns[1..][j] == ns[j + 1];
      }
    }
  }

  /** What a step must not do: read, link, unlink or free a state that is not there to be. */
  ghost predicate Misuses(s: State, a: Action)
    requires Enabled(s, a) && |s.buckets| == NUM_BUCKETS
  {
    match a
    case Insert(t) => PcOf(s, t).p !in s.live
    case Lookup(_, fd, _) => MeetsFreed(s, s.buckets[Hash(fd)], fd)
    case Use(t) => PcOf(s, t).p !in s.live || s.live[PcOf(s, t).p] != PcOf(s, t).fd
    case Unlink(t) =>
      var pc := PcOf(s, t); pc.p !in s.live || s.live[pc.p] != pc.fd || pc.p !in s.buckets[Hash(pc.fd)]
    case Free(t) =>
      var pc := PcOf(s, t); pc.p !in s.live || s.live[pc.p] != pc.fd || pc.p in s.buckets[Hash(pc.fd)]
    case _ => false
  }

  /** In any state whatever, safe or not, a step faults exactly if it does so: no misuse goes unnoticed. */
  lemma FaultsExactly(s: State, a: Action)
    requires Enabled(s, a) && |s.buckets| == NUM_BUCKETS
    ensures Next(s, a).fault <==> s.fault || Misuses(s, a)
  {
    if a.Lookup? {
      SearchTouches(s, s.buckets[Hash(a.fd)], a.fd);
    }
  }
}
