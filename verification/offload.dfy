/** Who owns a connection: event-loop workers, storage-pool threads and shutdown as a state
    machine (server/src/worker.c, server/src/server.c, common/src/thread_pool.c).

    A step is one access to shared state, one section under a worker's list lock, or one round
    of the loop of a drain, which takes no lock.  Any number of workers, pool threads and
    connections interleave with the accept loop. */
module Offload {
  import opened Common

  type Conn = nat
  type Worker = nat
  type Thread = nat

  /** Where a worker thread is.  todo: the connections of the fetched events still to come.
      left, kept: what its drain has still to visit, and what it has put on its own list. */
  datatype Pc =
    | Waiting
    | Batch(todo: seq<Conn>)
    | Serving(conn: Conn, todo: seq<Conn>)
    | Marked(conn: Conn, todo: seq<Conn>)
    | Submitted(conn: Conn, todo: seq<Conn>)
    | Dropping(conn: Conn, todo: seq<Conn>)
    | Draining(left: set<Conn>, kept: set<Conn>)
    | Exited

  /** Where a pool thread is in run_offloaded_handler. */
  datatype Stage = Working | Snapped | Locked | Cleared

  datatype Run = Run(conn: Conn, stage: Stage)

  /** Where the accept loop is in handle_new_connection: the connection is linked and its
      EPOLL_CTL_ADD is still to come, or the ADD has failed and the connection is unlinked
      again.  next: its successor, if it was linked while its worker was draining. */
  datatype Accept =
    | Ready
    | Linked(conn: Conn, w: Worker, next: Option<Conn>)
    | Unlinked(conn: Conn, w: Worker)

  /** Up: the accept loop runs.  Stopped: it has returned and the workers are told to stop. */
  datatype Phase = Up | Stopped | Joined | PoolGone | Done

  /** owner: the worker of every connection ever linked.  listed: linked in its worker's
      list.  head: the first of a list that is being drained; otherwise any linked connection
      may be the first.  epoll: its pointer is in its worker's epoll set.  lost: linked while
      its worker was draining its list, and so on no list once the drain ends. */
  datatype State = State(
    pc: map<Worker, Pc>, owner: map<Conn, Worker>, listed: set<Conn>, head: map<Worker, Option<Conn>>,
    epoll: set<Conn>, offloaded: set<Conn>, freed: set<Conn>, queue: multiset<Conn>, run: map<Thread, Run>,
    accept: Accept, phase: Phase, lost: set<Conn>)

  datatype Action =
    // handle_new_connection
    | Link(c: Conn, w: Worker, head: Option<Conn>)
    | Arm
    | Unlink(next: Option<Conn>)
    | Discard
    // worker_thread_function, dispatch_connection_event, dispatch_offloaded, drop_connection
    | Wait(w: Worker, todo: seq<Conn>)
    | Look(w: Worker)
    | Finish(w: Worker)
    | Fail(w: Worker)
    | Mark(w: Worker)
    | Submit(w: Worker, ok: bool)
    | Recheck(w: Worker)
    | Leave(w: Worker)
    | DropConn(w: Worker)
    | Reap(w: Worker, victims: set<Conn>)
    // the loop ends, on `running` or on a failing epoll_wait; drain_worker_connections
    | StartDrain(w: Worker, head: Option<Conn>, failed: bool)
    | DrainOne(w: Worker, c: Conn)
    | EndDrain(w: Worker)
    // worker_thread of the pool and run_offloaded_handler
    | Pop(t: Thread, c: Conn)
    | Handle(t: Thread)
    | Snapshot(t: Thread)
    | TakeLock(t: Thread)
    | Clear(t: Thread)
    | Rearm(t: Thread)
    // http_server_stop and http_server_cleanup
    | Stop
    | Join
    | DestroyPool
    | CleanUp(c: Conn)
    | Close

  ghost function Of(s: State, cs: set<Conn>, w: Worker): set<Conn> {
    set c | c in cs && c in s.owner && s.owner[c] == w
  }

  function Opt(c: Option<Conn>): set<Conn> {
    if c.Some? then {c.value} else {}
  }

  /** No pool thread is inside the worker's locked section. */
  ghost predicate LockFree(s: State, w: Worker) {
    forall t :: t in s.run && s.run[t].conn in s.owner && s.owner[s.run[t].conn] == w ==>
      s.run[t].stage.Working? || s.run[t].stage.Snapped?
  }

  predicate Distinct(cs: seq<Conn>) {
    forall i, j :: 0 <= i < j < |cs| ==> cs[i] != cs[j]
  }

  /** What the kernel may report to a worker: connections in its epoll set, each once. */
  ghost predicate Reportable(s: State, w: Worker, todo: seq<Conn>) {
    Distinct(todo) && forall i :: 0 <= i < |todo| ==> todo[i] in Of(s, s.epoll, w)
  }

  /** c is first among cs; none is when there are none. */
  predicate FirstOf(c: Option<Conn>, cs: set<Conn>) {
    if c.Some? then c.value in cs else cs == {}
  }

  /** The accept loop still works on the connection. */
  predicate Pending(s: State, c: Conn) {
    !s.accept.Ready? && s.accept.conn == c
  }

  // Whose step it is: the accept loop's, a pool thread's, the shutdown's; else a worker's.

  predicate IsAccept(a: Action) {
    a.Link? || a.Arm? || a.Unlink? || a.Discard?
  }

  predicate IsPool(a: Action) {
    a.Pop? || a.Handle? || a.Snapshot? || a.TakeLock? || a.Clear? || a.Rearm?
  }

  predicate IsShutdown(a: Action) {
    a.Stop? || a.Join? || a.DestroyPool? || a.CleanUp? || a.Close?
  }

  ghost predicate AcceptCan(s: State, a: Action) {
    match a
    case Link(c, w, head) =>
      && s.phase.Up? && s.accept.Ready? && c !in s.owner && w in s.pc && LockFree(s, w)
      && (if s.pc[w].Draining? then w in s.head && head == s.head[w] else FirstOf(head, Of(s, s.listed, w)))
    case Arm => s.accept.Linked?
    case Unlink(next) =>
      && s.accept.Linked? && s.accept.w in s.pc && LockFree(s, s.accept.w)
      && (if s.accept.conn in s.lost then next == s.accept.next
          else FirstOf(next, Of(s, s.listed, s.accept.w) - {s.accept.conn}))
    case Discard => s.accept.Unlinked?
    case _ => false
  }

  ghost predicate WorkerCan(s: State, a: Action) {
    match a
    case Wait(w, todo) => w in s.pc && s.pc[w].Waiting? && Reportable(s, w, todo)
    case Look(w) => w in s.pc && s.pc[w].Batch? && |s.pc[w].todo| > 0
    case Finish(w) => w in s.pc && s.pc[w].Serving?
    case Fail(w) => w in s.pc && s.pc[w].Serving?
    case Mark(w) => w in s.pc && s.pc[w].Serving?
    case Submit(w, ok) => w in s.pc && s.pc[w].Marked?
    case Recheck(w) => w in s.pc && s.pc[w].Submitted?
    case Leave(w) => w in s.pc && s.pc[w].Submitted?
    case DropConn(w) => w in s.pc && s.pc[w].Dropping? && LockFree(s, w)
    case Reap(w, victims) =>
      w in s.pc && s.pc[w] == Batch([]) && LockFree(s, w) && victims <= Of(s, s.listed, w) - s.offloaded
    case StartDrain(w, head, failed) =>
      && w in s.pc && s.pc[w].Waiting? && (failed || !s.phase.Up?)
      && FirstOf(head, Of(s, s.listed, w))
      && (s.accept.Linked? && s.accept.w == w && s.accept.conn in s.listed ==> head == Some(s.accept.conn))
    case DrainOne(w, c) => w in s.pc && s.pc[w].Draining? && c in s.pc[w].left
    case EndDrain(w) => w in s.pc && s.pc[w].Draining? && s.pc[w].left == {}
    case _ => false
  }

  ghost predicate PoolCan(s: State, a: Action) {
    match a
    case Pop(t, c) => t !in s.run && c in s.queue && !s.phase.PoolGone? && !s.phase.Done?
    case Handle(t) => t in s.run && s.run[t].stage.Working?
    case Snapshot(t) => t in s.run && s.run[t].stage.Working?
    case TakeLock(t) =>
      t in s.run && s.run[t].stage.Snapped? && s.run[t].conn in s.owner && LockFree(s, s.owner[s.run[t].conn])
    case Clear(t) => t in s.run && s.run[t].stage.Locked?
    case Rearm(t) => t in s.run && s.run[t].stage.Cleared?
    case _ => false
  }

  ghost predicate ShutdownCan(s: State, a: Action) {
    match a
    case Stop => s.phase.Up? && s.accept.Ready?
    case Join => s.phase.Stopped? && forall w :: w in s.pc ==> s.pc[w].Exited?
    case DestroyPool => s.phase.Joined? && s.run == map[]
    case CleanUp(c) => s.phase.PoolGone? && c in s.listed
    case Close => s.phase.PoolGone? && s.listed == {}
    case _ => false
  }

  ghost predicate Enabled(s: State, a: Action) {
    if IsAccept(a) then AcceptCan(s, a)
    else if IsPool(a) then PoolCan(s, a)
    else if IsShutdown(a) then ShutdownCan(s, a)
    else WorkerCan(s, a)
  }

  /** free_connection closes the socket, which takes it out of the epoll set. */
  function Freed(s: State, cs: set<Conn>): State {
    s.(freed := s.freed + cs, epoll := s.epoll - cs)
  }

  function AtPc(s: State, w: Worker, p: Pc): State {
    s.(pc := s.pc[w := p])
  }

  /** remove_connection_from_worker on a connection the accept loop has just linked: it has
      no predecessor, so its successor becomes the head whatever has happened to the list
      since.  A drain standing on it finds no successor any more. */
  ghost function Removed(s: State, next: Option<Conn>): State
    requires s.accept.Linked? && s.accept.w in s.pc
  {
    var c, w := s.accept.conn, s.accept.w;
    var p := s.pc[w];
    if p.Draining? then
      s.(listed := s.listed - {c}, lost := s.lost - {c}, head := s.head[w := next],
         pc := s.pc[w := if c in p.left then Draining({c}, p.kept) else p])
    else if c in s.lost then
      s.(listed := s.listed - Of(s, s.listed, w) + Opt(next), lost := s.lost - {c})
    else s.(listed := s.listed - {c})
  }

  ghost function AcceptDo(s: State, a: Action): State
    requires AcceptCan(s, a)
  {
    match a
    case Link(c, w, head) =>
      var s' := s.(owner := s.owner[c := w], listed := s.listed + {c});
      if s.pc[w].Draining? then
        s'.(accept := Linked(c, w, head), head := s.head[w := Some(c)], lost := s.lost + {c})
      else s'.(accept := Linked(c, w, None))
    case Arm => s.(epoll := s.epoll + {s.accept.conn}, accept := Ready)
    case Unlink(next) => Removed(s, next).(accept := Unlinked(s.accept.conn, s.accept.w))
    case Discard => Freed(s, {s.accept.conn}).(accept := Ready)
  }

  ghost function WorkerDo(s: State, a: Action): State
    requires WorkerCan(s, a)
  {
    match a
    case Wait(w, todo) => AtPc(s, w, Batch(todo))
    case Look(w) =>
      var c, rest := s.pc[w].todo[0], s.pc[w].todo[1..];
      AtPc(s, w, if c in s.offloaded then Batch(rest) else Serving(c, rest))
    case Finish(w) => AtPc(s, w, Batch(s.pc[w].todo))
    case Fail(w) => AtPc(s, w, Dropping(s.pc[w].conn, s.pc[w].todo))
    case Mark(w) =>
      AtPc(s, w, Marked(s.pc[w].conn, s.pc[w].todo)).(offloaded := s.offloaded + {s.pc[w].conn})
    case Submit(w, ok) =>
      var c := s.pc[w].conn;
      if ok then AtPc(s, w, Submitted(c, s.pc[w].todo)).(queue := s.queue + multiset{c})
      else AtPc(s, w, Serving(c, s.pc[w].todo)).(offloaded := s.offloaded - {c})
    case Recheck(w) =>
      var c, rest := s.pc[w].conn, s.pc[w].todo;
      AtPc(s, w, if c in s.offloaded then Batch(rest) else Serving(c, rest))
    case Leave(w) => AtPc(s, w, Batch(s.pc[w].todo))
    case DropConn(w) =>
      var c := s.pc[w].conn;
      var s' := AtPc(s, w, Batch(s.pc[w].todo));
      if c in s.offloaded then s' else Freed(s', {c}).(listed := s.listed - {c})
    case Reap(w, victims) => Freed(AtPc(s, w, Waiting), victims).(listed := s.listed - victims)
    case StartDrain(w, head, _) => AtPc(s, w, Draining(Of(s, s.listed, w), {})).(head := s.head[w := head])
    case DrainOne(w, c) =>
      var p := s.pc[w];
      if c in s.offloaded then AtPc(s, w, Draining(p.left - {c}, p.kept + {c}))
      else Freed(AtPc(s, w, Draining(p.left - {c}, p.kept)), {c})
    case EndDrain(w) => AtPc(s, w, Exited).(listed := s.listed - Of(s, s.listed, w) + s.pc[w].kept)
  }

  ghost function PoolDo(s: State, a: Action): State
    requires PoolCan(s, a)
  {
    match a
    case Pop(t, c) => s.(queue := s.queue - multiset{c}, run := s.run[t := Run(c, Working)])
    case Handle(t) => s
    case Snapshot(t) => s.(run := s.run[t := Run(s.run[t].conn, Snapped)])
    case TakeLock(t) => s.(run := s.run[t := Run(s.run[t].conn, Locked)])
    case Clear(t) =>
      s.(run := s.run[t := Run(s.run[t].conn, Cleared)], offloaded := s.offloaded - {s.run[t].conn})
    case Rearm(t) => s.(run := s.run - {t}, epoll := s.epoll + {s.run[t].conn})
  }

  ghost function ShutdownDo(s: State, a: Action): State
    requires ShutdownCan(s, a)
  {
    match a
    case Stop => s.(phase := Stopped)
    case Join => s.(phase := Joined)
    case DestroyPool => s.(phase := PoolGone, queue := multiset{})
    case CleanUp(c) => Freed(s, {c}).(listed := s.listed - {c})
    case Close => s.(phase := Done)
  }

  ghost function Apply(s: State, a: Action): State
    requires Enabled(s, a)
  {
    if IsAccept(a) then AcceptDo(s, a)
    else if IsPool(a) then PoolDo(s, a)
    else if IsShutdown(a) then ShutdownDo(s, a)
    else WorkerDo(s, a)
  }

  /** The connections a step reads or writes.  Linking writes to the old head, unlinking to
      the neighbours, and a drain to the last connection it kept. */
  ghost function Touches(s: State, a: Action): set<Conn>
    requires Enabled(s, a)
  {
    match a
    case Link(c, w, head) => {c} + Opt(head)
    case Unlink(next) => {s.accept.conn} + Opt(next)
    case Discard => {s.accept.conn}
    case Look(w) => {s.pc[w].todo[0]}
    case Finish(w) => {s.pc[w].conn}
    case Fail(w) => {s.pc[w].conn}
    case Mark(w) => {s.pc[w].conn}
    case Submit(w, _) => {s.pc[w].conn}
    case Recheck(w) => {s.pc[w].conn}
    case DropConn(w) => {s.pc[w].conn} + Of(s, s.listed, w)
    case Reap(w, _) => Of(s, s.listed, w)
    case DrainOne(w, c) => {c} + s.pc[w].kept
    case Handle(t) => {s.run[t].conn}
    case Snapshot(t) => {s.run[t].conn}
    case Clear(t) => {s.run[t].conn}
    case CleanUp(c) => {c}
    case _ => {}
  }

  /** The connections a step frees. */
  ghost function Frees(s: State, a: Action): set<Conn>
    requires Enabled(s, a)
  {
    match a
    case Discard => {s.accept.conn}
    case DropConn(w) => if s.pc[w].conn in s.offloaded then {} else {s.pc[w].conn}
    case Reap(_, victims) => victims
    case DrainOne(_, c) => if c in s.offloaded then {} else {c}
    case CleanUp(c) => {c}
    case _ => {}
  }

  /** A pool task for the connection is queued, or runs and still owns it. */
  ghost predicate Tasked(s: State, c: Conn) {
    c in s.queue || exists t :: t in s.run && s.run[t].conn == c && !s.run[t].stage.Cleared?
  }

  /** A drain has still to visit the connection. */
  ghost predicate Walked(s: State, c: Conn) {
    exists w :: w in s.pc && s.pc[w].Draining? && c in s.pc[w].left
  }

  /** A step goes wrong: it touches a freed connection, frees or unlinks one that another
      thread still holds (the accept loop or a drain), or leaves other connections linked
      than it should. */
  ghost predicate Faulty(s: State, a: Action)
    requires Enabled(s, a)
  {
    || !(Touches(s, a) !! s.freed)
    || (!a.Discard? && exists c :: Pending(s, c) && c in Frees(s, a))
    || (a.Unlink? && (Walked(s, s.accept.conn) || Apply(s, a).listed != s.listed - {s.accept.conn}))
  }

  /** The guards under which handle_new_connection races with the worker it registers with:
      linking in front of a head that the drain has freed, and anything that happens to the
      connection itself, or to its place in the list, between its link and its ADD. */
  ghost predicate Racy(s: State, a: Action)
    requires Enabled(s, a)
  {
    match a
    case Link(_, w, head) => s.pc[w].Draining? && head.Some? && head.value in s.freed
    case Unlink(next) =>
      var c, w := s.accept.conn, s.accept.w;
      if s.pc[w].Draining? then c in s.pc[w].left || (next.Some? && next.value in s.freed)
      else c in s.lost && Of(s, s.listed, w) != Opt(next)
    case Reap(_, victims) => !s.accept.Ready? && s.accept.conn in victims
    case DrainOne(_, c) => Pending(s, c)
    case _ => false
  }

  ghost predicate Init(s: State) {
    s.owner == map[] && s.listed == {} && s.head == map[] && s.epoll == {} && s.offloaded == {} && s.freed == {}
    && s.queue == multiset{} && s.run == map[] && s.accept.Ready? && s.phase.Up? && s.lost == {}
    && forall w :: w in s.pc ==> s.pc[w] == Waiting
  }

  // ---- the invariant -----------------------------------------------------------------------

  ghost predicate Ending(s: State, w: Worker) {
    w in s.pc && (s.pc[w].Draining? || s.pc[w].Exited?)
  }

  /** A connection a worker may look at: its own, not freed, and fully registered. */
  ghost predicate Live(s: State, c: Conn, w: Worker) {
    c in s.owner && s.owner[c] == w && c !in s.freed && !Pending(s, c)
  }

  ghost predicate TodoOk(s: State, w: Worker, todo: seq<Conn>) {
    Distinct(todo) && forall i :: 0 <= i < |todo| ==> Live(s, todo[i], w)
  }

  /** The worker holds c for itself: its flag is down and no task is out. */
  ghost predicate HeldBy(s: State, c: Conn, w: Worker, todo: seq<Conn>) {
    Live(s, c, w) && TodoOk(s, w, todo) && c !in todo && !Tasked(s, c)
  }

  /** A connection a drain started from and has not freed. */
  ghost predicate Drained(s: State, c: Conn, w: Worker) {
    c in s.owner && s.owner[c] == w && c !in s.freed && c in s.listed && c !in s.lost
  }

  ghost predicate WorkerOk(s: State, w: Worker)
    requires w in s.pc
  {
    match s.pc[w]
    case Waiting => true
    case Batch(todo) => TodoOk(s, w, todo)
    case Serving(c, todo) => HeldBy(s, c, w, todo) && c !in s.offloaded
    case Marked(c, todo) => HeldBy(s, c, w, todo) && c in s.offloaded
    case Submitted(c, todo) => Live(s, c, w) && TodoOk(s, w, todo) && c !in todo
    case Dropping(c, todo) => HeldBy(s, c, w, todo) && c !in s.offloaded
    case Draining(left, kept) =>
      && left !! kept
      && (forall c :: c in left ==> Drained(s, c, w))
      && (forall c :: c in kept ==> Drained(s, c, w) && !Pending(s, c))
    case Exited => true
  }

  /** A task that still owns its connection: flag up, not freed, no second task. */
  ghost predicate ThreadOk(s: State, t: Thread)
    requires t in s.run
  {
    var c := s.run[t].conn;
    && c in s.owner && !Pending(s, c)
    && (!s.run[t].stage.Cleared? ==> c in s.offloaded && c !in s.freed && c !in s.queue)
    && (s.run[t].stage.Cleared? && c in s.freed ==> Ending(s, s.owner[c]))
    && (forall u :: u in s.run && u != t && s.run[u].conn == c && !s.run[t].stage.Cleared? ==> s.run[u].stage.Cleared?)
  }

  /** Where a connection is, and what its being there excludes. */
  ghost predicate ConnOk(s: State, c: Conn)
    requires c in s.owner
  {
    var w := s.owner[c];
    && w in s.pc
    && (c in s.queue ==> s.queue[c] == 1 && c in s.offloaded && c !in s.freed && !Pending(s, c))
    && (c in s.epoll && c in s.freed ==> Ending(s, w))
    && (c in s.epoll || c in s.offloaded ==> !Pending(s, c))
    && (c in s.lost ==> Ending(s, w) && c !in s.freed && c !in s.offloaded && !Tasked(s, c))
    && (s.pc[w].Draining? ==>
          c in s.lost || c in s.freed || c in s.pc[w].left || c in s.pc[w].kept || s.accept == Unlinked(c, w))
    && (!s.pc[w].Draining? ==> c !in s.listed || c !in s.freed)
    && (s.pc[w].Exited? ==> c !in s.listed || c !in s.lost)
    && (!s.pc[w].Draining? ==> c in s.lost || c in s.freed || c in s.listed || s.accept == Unlinked(c, w))
  }

  predicate OwnedBy(s: State, c: Option<Conn>, w: Worker) {
    c.Some? ==> c.value in s.owner && s.owner[c.value] == w
  }

  /** The connection under registration belongs to the accept loop alone. */
  ghost predicate AcceptOk(s: State) {
    !s.accept.Ready? ==>
      var c := s.accept.conn;
      && s.phase.Up? && c in s.owner && s.owner[c] == s.accept.w && c !in s.freed
      && (s.accept.Linked? && s.accept.next.Some? ==> c in s.lost && OwnedBy(s, s.accept.next, s.accept.w))
      && (s.accept.Unlinked? ==> c !in s.listed && c !in s.lost)
  }

  ghost predicate PhaseOk(s: State) {
    && (!s.phase.Up? && !s.phase.Stopped? ==> forall w :: w in s.pc ==> s.pc[w].Exited?)
    && (s.phase.PoolGone? || s.phase.Done? ==> s.run == map[] && s.queue == multiset{})
    && (s.phase.Done? ==> s.listed == {})
    && AcceptOk(s)
  }

  ghost predicate Seen(s: State, c: Conn) {
    c in s.listed || c in s.epoll || c in s.freed || c in s.lost || c in s.offloaded || c in s.queue
  }

  /** Only registered connections appear anywhere. */
  ghost predicate KnownOk(s: State) {
    && (forall c :: Seen(s, c) ==> c in s.owner)
    && (forall t :: t in s.run ==> s.run[t].conn in s.owner)
    && (forall w :: w in s.head ==> OwnedBy(s, s.head[w], w))
  }

  ghost predicate Inv(s: State) {
    && (forall w :: w in s.pc ==> WorkerOk(s, w))
    && (forall t :: t in s.run ==> ThreadOk(s, t))
    && (forall c :: c in s.owner ==> ConnOk(s, c))
    && KnownOk(s) && PhaseOk(s)
  }

  // ---- every step keeps it -------------------------------------------------------------------

  ghost predicate WorkerIs(s: State, w: Worker) {
    w in s.pc && WorkerOk(s, w)
  }

  ghost predicate ThreadIs(s: State, t: Thread) {
    t in s.run && ThreadOk(s, t)
  }

  /** What the invariant says about the thread that takes a step. */
  ghost predicate ActorOk(s: State, a: Action) {
    PhaseOk(s) && KnownOk(s) &&
    match a
    case Link(_, w, _) => WorkerIs(s, w)
    case Unlink(_) =>
      s.accept.Linked? && WorkerIs(s, s.accept.w) && s.accept.conn in s.owner && ConnOk(s, s.accept.conn)
    case Wait(w, _) => WorkerIs(s, w)
    case Look(w) => WorkerIs(s, w)
    case Finish(w) => WorkerIs(s, w)
    case Fail(w) => WorkerIs(s, w)
    case Mark(w) => WorkerIs(s, w)
    case Submit(w, _) => WorkerIs(s, w)
    case Recheck(w) => WorkerIs(s, w)
    case Leave(w) => WorkerIs(s, w)
    case DropConn(w) => WorkerIs(s, w)
    case Reap(w, _) => WorkerIs(s, w)
    case StartDrain(w, _, _) => WorkerIs(s, w)
    case DrainOne(w, _) => WorkerIs(s, w)
    case EndDrain(w) => WorkerIs(s, w)
    case Pop(_, c) => c in s.owner && ConnOk(s, c)
    case Handle(t) => ThreadIs(s, t)
    case Snapshot(t) => ThreadIs(s, t)
    case TakeLock(t) => ThreadIs(s, t)
    case Clear(t) => ThreadIs(s, t)
    case Rearm(t) => ThreadIs(s, t)
    case _ => true
  }

  ghost predicate ByWorker(a: Action, w: Worker) {
    (a.Wait? || a.Look? || a.Finish? || a.Fail? || a.Mark? || a.Submit? || a.Recheck? || a.Leave? || a.DropConn?
     || a.Reap? || a.StartDrain? || a.DrainOne? || a.EndDrain?) && a.w == w
  }

  /** A worker's own view is untouched by a step that leaves its connections alone. */
  ghost predicate ViewKept(s: State, u: State, v: Worker)
    requires v in s.pc
  {
    var p := s.pc[v];
    && v in u.pc && u.pc[v] == p
    && (!p.Exited? && !p.Draining? ==> forall c :: Live(s, c, v) ==> Live(u, c, v))
    && (p.Serving? || p.Marked? || p.Dropping? ==>
          (Tasked(u, p.conn) ==> Tasked(s, p.conn)) && (p.conn in u.offloaded <==> p.conn in s.offloaded))
    && (p.Draining? ==> forall c :: c in p.left ==> Drained(u, c, v))
    && (p.Draining? ==> forall c :: c in p.kept ==> Drained(u, c, v) && !Pending(u, c))
  }

  lemma {:induction false} TaskedStays(s: State, u: State)
    ensures u.queue == s.queue && u.run == s.run ==> forall c :: Tasked(u, c) == Tasked(s, c)
  {
  }

  lemma {:induction false} ViewFrame(s: State, u: State, v: Worker)
    requires v in s.pc && WorkerOk(s, v) && ViewKept(s, u, v)
    ensures WorkerOk(u, v)
  {
    hide Tasked, Distinct;
  }

  predicate IsMove(a: Action) {
    a.Wait? || a.Look? || a.Finish? || a.Fail? || a.Recheck? || a.Leave?
  }

  predicate IsHand(a: Action) {
    a.Mark? || a.Submit?
  }

  predicate IsFree(a: Action) {
    a.DropConn? || a.Reap? || a.CleanUp?
  }

  predicate IsDrain(a: Action) {
    a.StartDrain? || a.DrainOne? || a.EndDrain?
  }

  predicate IsRest(a: Action) {
    a.Stop? || a.Join? || a.DestroyPool? || a.Close?
  }

  lemma {:induction false} ViewMove(s: State, a: Action, v: Worker)
    requires Enabled(s, a) && ActorOk(s, a) && IsMove(a) && WorkerIs(s, v) && !ByWorker(a, v)
    ensures ViewKept(s, Apply(s, a), v)
  {
    hide Distinct, LockFree, Reportable, FirstOf;
  }

  lemma {:induction false} ThreadMove(s: State, a: Action, t: Thread)
    requires Enabled(s, a) && ActorOk(s, a) && IsMove(a) && t in Apply(s, a).run && (t in s.run ==> ThreadOk(s, t))
    ensures ThreadOk(Apply(s, a), t)
  {
    hide Distinct, LockFree, Reportable, FirstOf;
  }

  lemma {:induction false} ConnMove(s: State, a: Action, c: Conn)
    requires Enabled(s, a) && ActorOk(s, a) && IsMove(a) && c in Apply(s, a).owner && (c in s.owner ==> ConnOk(s, c))
    ensures ConnOk(Apply(s, a), c)
  {
    hide Distinct, LockFree, Reportable, FirstOf;
  }

  lemma {:induction false} ViewHand(s: State, a: Action, v: Worker)
    requires Enabled(s, a) && ActorOk(s, a) && IsHand(a) && WorkerIs(s, v) && !ByWorker(a, v)
    ensures ViewKept(s, Apply(s, a), v)
  {
    hide Distinct, LockFree, Reportable, FirstOf, ThreadOk, KnownOk, PhaseOk;
  }

  lemma {:induction false} ThreadMark(s: State, a: Action, t: Thread)
    requires Enabled(s, a) && ActorOk(s, a) && a.Mark? && t in Apply(s, a).run && (t in s.run ==> ThreadOk(s, t))
    ensures ThreadOk(Apply(s, a), t)
  {
    hide Distinct, LockFree, Reportable, FirstOf;
  }

  lemma {:induction false} ThreadSubmit(s: State, a: Action, t: Thread)
    requires Enabled(s, a) && ActorOk(s, a) && a.Submit? && t in Apply(s, a).run && (t in s.run ==> ThreadOk(s, t))
    ensures ThreadOk(Apply(s, a), t)
  {
    hide Distinct, LockFree, Reportable, FirstOf;
  }

  lemma {:induction false} ConnMark(s: State, a: Action, c: Conn)
    requires Enabled(s, a) && ActorOk(s, a) && a.Mark? && c in Apply(s, a).owner && (c in s.owner ==> ConnOk(s, c))
    ensures ConnOk(Apply(s, a), c)
  {
    hide Distinct, LockFree, Reportable, FirstOf;
  }

  lemma {:induction false} ConnSubmit(s: State, a: Action, c: Conn)
    requires Enabled(s, a) && ActorOk(s, a) && a.Submit? && c in Apply(s, a).owner && (c in s.owner ==> ConnOk(s, c))
    ensures ConnOk(Apply(s, a), c)
  {
    hide Distinct, LockFree, Reportable, FirstOf;
  }

  lemma {:induction false} ViewFree(s: State, a: Action, v: Worker)
    requires Enabled(s, a) && ActorOk(s, a) && !Racy(s, a) && IsFree(a) && WorkerIs(s, v) && !ByWorker(a, v)
    ensures ViewKept(s, Apply(s, a), v)
  {
    hide Distinct, LockFree, Reportable, FirstOf, ThreadOk, Tasked, TodoOk, KnownOk, AcceptOk;
    TaskedStays(s, Apply(s, a));
    TaskedStays(s, Apply(s, a));
  }

  lemma {:induction false} ThreadFree(s: State, a: Action, t: Thread)
    requires Enabled(s, a) && ActorOk(s, a) && !Racy(s, a) && IsFree(a)
    requires t in Apply(s, a).run && (t in s.run ==> ThreadOk(s, t))
    ensures ThreadOk(Apply(s, a), t)
  {
    hide Distinct, Reportable, FirstOf, KnownOk, TodoOk, Tasked;
  }

  lemma {:induction false} ConnFree(s: State, a: Action, c: Conn)
    requires Enabled(s, a) && ActorOk(s, a) && !Racy(s, a) && IsFree(a)
    requires c in Apply(s, a).owner && (c in s.owner ==> ConnOk(s, c))
    ensures ConnOk(Apply(s, a), c)
  {
    hide Distinct, LockFree, Reportable, FirstOf;
  }

  lemma {:induction false} ViewDrain(s: State, a: Action, v: Worker)
    requires Enabled(s, a) && ActorOk(s, a) && !Racy(s, a) && (a.StartDrain? || a.EndDrain?)
    requires WorkerIs(s, v) && !ByWorker(a, v)
    ensures ViewKept(s, Apply(s, a), v)
  {
    hide Distinct, LockFree, Reportable, FirstOf;
  }

  lemma {:induction false} ViewDrainOne(s: State, a: Action, v: Worker)
    requires Enabled(s, a) && ActorOk(s, a) && !Racy(s, a) && a.DrainOne? && WorkerIs(s, v) && !ByWorker(a, v)
    ensures ViewKept(s, Apply(s, a), v)
  {
    hide Distinct, LockFree, Reportable, FirstOf, ThreadOk, Tasked, TodoOk, KnownOk, PhaseOk;
    TaskedStays(s, Apply(s, a));
  }

  lemma {:induction false} ThreadDrain(s: State, a: Action, t: Thread)
    requires Enabled(s, a) && ActorOk(s, a) && !Racy(s, a) && (a.StartDrain? || a.EndDrain?)
    requires t in Apply(s, a).run && (t in s.run ==> ThreadOk(s, t))
    ensures ThreadOk(Apply(s, a), t)
  {
    hide Distinct, LockFree, Reportable, FirstOf;
  }

  lemma {:induction false} ThreadDrainOne(s: State, a: Action, t: Thread)
    requires Enabled(s, a) && ActorOk(s, a) && !Racy(s, a) && a.DrainOne?
    requires t in Apply(s, a).run && (t in s.run ==> ThreadOk(s, t))
    ensures ThreadOk(Apply(s, a), t)
  {
    hide Distinct, LockFree, Reportable, FirstOf;
  }

  lemma {:induction false} ConnDrain(s: State, a: Action, c: Conn)
    requires Enabled(s, a) && ActorOk(s, a) && !Racy(s, a) && (a.StartDrain? || a.EndDrain?)
    requires c in Apply(s, a).owner && (c in s.owner ==> ConnOk(s, c))
    ensures ConnOk(Apply(s, a), c)
  {
    hide Distinct, LockFree, Reportable, FirstOf;
  }

  lemma {:induction false} ConnDrainOne(s: State, a: Action, c: Conn)
    requires Enabled(s, a) && ActorOk(s, a) && !Racy(s, a) && a.DrainOne?
    requires c in Apply(s, a).owner && (c in s.owner ==> ConnOk(s, c))
    ensures ConnOk(Apply(s, a), c)
  {
    hide Distinct, LockFree, Reportable, FirstOf, KnownOk, PhaseOk, ThreadOk, Tasked;
    TaskedSame(s, Apply(s, a), c);
  }

  lemma {:induction false} ViewPool(s: State, a: Action, v: Worker)
    requires Enabled(s, a) && ActorOk(s, a) && IsPool(a) && WorkerIs(s, v) && !ByWorker(a, v)
    ensures ViewKept(s, Apply(s, a), v)
  {
    PoolFields(s, a);
    if s.pc[v].Serving? || s.pc[v].Marked? || s.pc[v].Dropping? { PoolTasks(s, a, s.pc[v].conn); }
    hide Distinct, LockFree, Reportable, FirstOf, TodoOk, Apply, Enabled, ActorOk, Tasked;
  }

  /** A pool thread takes on only what is queued, and lowers only the flag of its own task. */
  lemma {:induction false} PoolTasks(s: State, a: Action, c: Conn)
    requires Enabled(s, a) && IsPool(a)
    ensures Tasked(Apply(s, a), c) ==> Tasked(s, c)
    ensures c in s.offloaded && c !in Apply(s, a).offloaded ==> Tasked(s, c)
  {
    hide LockFree;
  }

  lemma {:induction false} ThreadPool(s: State, a: Action, t: Thread)
    requires Enabled(s, a) && ActorOk(s, a) && IsPool(a) && t in Apply(s, a).run && (t in s.run ==> ThreadOk(s, t))
    requires a.Pop? ==> forall u :: u in s.run ==> ThreadOk(s, u)
    ensures ThreadOk(Apply(s, a), t)
  {
    hide Distinct, LockFree, Reportable, FirstOf, KnownOk, PhaseOk, TodoOk, WorkerOk;
  }

  lemma {:induction false} ConnPool(s: State, a: Action, c: Conn)
    requires Enabled(s, a) && ActorOk(s, a) && IsPool(a) && c in Apply(s, a).owner && (c in s.owner ==> ConnOk(s, c))
    ensures ConnOk(Apply(s, a), c)
  {
    hide Distinct, LockFree, Reportable, FirstOf;
  }

  lemma {:induction false} ViewLink(s: State, a: Action, v: Worker)
    requires Enabled(s, a) && ActorOk(s, a) && !Racy(s, a) && a.Link? && WorkerIs(s, v) && !ByWorker(a, v)
    ensures ViewKept(s, Apply(s, a), v)
  {
    hide Distinct, LockFree, Reportable, FirstOf;
  }

  lemma {:induction false} ViewUnlink(s: State, a: Action, v: Worker)
    requires Enabled(s, a) && ActorOk(s, a) && !Racy(s, a) && a.Unlink? && WorkerIs(s, v) && !ByWorker(a, v)
    ensures ViewKept(s, Apply(s, a), v)
  {
    hide Distinct, LockFree, Reportable, FirstOf, ThreadOk, Tasked, TodoOk, HeldBy;
    TaskedStays(s, Apply(s, a));
  }

  lemma {:induction false} ViewArm(s: State, a: Action, v: Worker)
    requires Enabled(s, a) && ActorOk(s, a) && !Racy(s, a) && (a.Arm? || a.Discard?)
    requires WorkerIs(s, v) && !ByWorker(a, v)
    ensures ViewKept(s, Apply(s, a), v)
  {
    hide Distinct, LockFree, Reportable, FirstOf;
  }

  lemma {:induction false} ThreadAccept(s: State, a: Action, t: Thread)
    requires Enabled(s, a) && ActorOk(s, a) && !Racy(s, a) && IsAccept(a)
    requires t in Apply(s, a).run && (t in s.run ==> ThreadOk(s, t))
    ensures ThreadOk(Apply(s, a), t)
  {
    hide Distinct, LockFree, Reportable, FirstOf;
  }

  lemma {:induction false} ConnLink(s: State, a: Action, c: Conn)
    requires Enabled(s, a) && ActorOk(s, a) && !Racy(s, a) && a.Link?
    requires c in Apply(s, a).owner && (c in s.owner ==> ConnOk(s, c))
    ensures ConnOk(Apply(s, a), c)
  {
    hide Distinct, LockFree, Reportable, FirstOf;
  }

  lemma {:induction false} ConnUnlink(s: State, a: Action, c: Conn)
    requires Enabled(s, a) && ActorOk(s, a) && !Racy(s, a) && a.Unlink?
    requires c in Apply(s, a).owner && (c in s.owner ==> ConnOk(s, c))
    ensures ConnOk(Apply(s, a), c)
  {
    hide Distinct, LockFree, Reportable, FirstOf;
  }

  lemma {:induction false} ConnArm(s: State, a: Action, c: Conn)
    requires Enabled(s, a) && ActorOk(s, a) && !Racy(s, a) && (a.Arm? || a.Discard?)
    requires c in Apply(s, a).owner && (c in s.owner ==> ConnOk(s, c))
    ensures ConnOk(Apply(s, a), c)
  {
    hide Distinct, LockFree, Reportable, FirstOf;
  }

  lemma {:induction false} ViewRest(s: State, a: Action, v: Worker)
    requires Enabled(s, a) && ActorOk(s, a) && IsRest(a) && WorkerIs(s, v) && !ByWorker(a, v)
    ensures ViewKept(s, Apply(s, a), v)
  {
    hide Distinct, LockFree, Reportable, FirstOf;
  }

  lemma {:induction false} ThreadRest(s: State, a: Action, t: Thread)
    requires Enabled(s, a) && ActorOk(s, a) && IsRest(a) && t in Apply(s, a).run && (t in s.run ==> ThreadOk(s, t))
    ensures ThreadOk(Apply(s, a), t)
  {
    hide Distinct, LockFree, Reportable, FirstOf;
  }

  lemma {:induction false} ConnRest(s: State, a: Action, c: Conn)
    requires Enabled(s, a) && ActorOk(s, a) && IsRest(a) && c in Apply(s, a).owner && (c in s.owner ==> ConnOk(s, c))
    ensures ConnOk(Apply(s, a), c)
  {
    hide Distinct, LockFree, Reportable, FirstOf;
  }

  lemma {:induction false} TaskedMeansOffloaded(s: State, c: Conn)
    requires Inv(s)
    ensures Tasked(s, c) ==> c in s.offloaded && c !in s.freed && c in s.owner
  {
    if c in s.queue {
      assert ConnOk(s, c);
    } else if t :| t in s.run && s.run[t].conn == c && !s.run[t].stage.Cleared? {
      assert ThreadOk(s, t);
    }
  }

  lemma {:induction false} TaskedSame(s: State, u: State, c: Conn)
    requires u.queue == s.queue && u.run == s.run
    ensures Tasked(u, c) == Tasked(s, c)
  {
  }

  /** What the worker's own steps leave it with. */
  lemma {:induction false} SelfMove(s: State, a: Action, w: Worker)
    requires Inv(s) && Enabled(s, a) && ActorOk(s, a) && IsMove(a) && ByWorker(a, w)
    ensures WorkerOk(Apply(s, a), w)
  {
    hide Tasked, Inv;
    var u, p := Apply(s, a), s.pc[w];
    if a.Look? {
      assert p.todo == [p.todo[0]] + p.todo[1..];
      TaskedMeansOffloaded(s, p.todo[0]);
      TaskedSame(s, u, p.todo[0]);
    } else if a.Wait? {
      forall i | 0 <= i < |a.todo| ensures Live(s, a.todo[i], w) { EpollLive(s, w, a.todo[i]); }
    } else {
      TaskedMeansOffloaded(s, p.conn);
      TaskedSame(s, u, p.conn);
    }
  }

  lemma {:induction false} EpollLive(s: State, w: Worker, c: Conn)
    requires Inv(s) && w in s.pc && s.pc[w].Waiting? && c in Of(s, s.epoll, w)
    ensures Live(s, c, w)
  {
    assert ConnOk(s, c);
  }

  lemma {:induction false} SelfHand(s: State, a: Action, w: Worker)
    requires Enabled(s, a) && ActorOk(s, a) && IsHand(a) && ByWorker(a, w)
    ensures WorkerOk(Apply(s, a), w)
  {
    var u, p := Apply(s, a), s.pc[w];
    if a.Mark? || !a.ok { TaskedSame(s, u, p.conn); }
  }

  lemma {:induction false} SelfFree(s: State, a: Action, w: Worker)
    requires Enabled(s, a) && ActorOk(s, a) && !Racy(s, a) && IsFree(a) && ByWorker(a, w)
    ensures WorkerOk(Apply(s, a), w)
  {
    hide Tasked;
  }

  lemma {:induction false} SelfDrain(s: State, a: Action, w: Worker)
    requires Inv(s) && Enabled(s, a) && ActorOk(s, a) && !Racy(s, a) && IsDrain(a) && ByWorker(a, w)
    ensures WorkerOk(Apply(s, a), w)
  {
    hide Tasked, Inv;
    if a.StartDrain? {
      forall c | c in Of(s, s.listed, w) ensures Drained(s, c, w) { ListedLive(s, w, c); }
    } else if a.DrainOne? {
      if a.c in s.offloaded { OffloadedSettled(s, a.c); }
    }
  }

  lemma {:induction false} ListedLive(s: State, w: Worker, c: Conn)
    requires Inv(s) && w in s.pc && !s.pc[w].Draining? && c in Of(s, s.listed, w)
    ensures Drained(s, c, w)
  {
    assert ConnOk(s, c);
  }

  lemma {:induction false} OffloadedSettled(s: State, c: Conn)
    requires Inv(s) && c in s.offloaded
    ensures !Pending(s, c)
  {
    assert Seen(s, c) && ConnOk(s, c);
  }

  // ---- whole steps and runs ----------------------------------------------------------------

  lemma {:induction false} ActorIsOk(s: State, a: Action)
    requires Inv(s) && Enabled(s, a)
    ensures ActorOk(s, a)
  {
    hide WorkerOk, ThreadOk, ConnOk;
  }

  // What each kind of step leaves alone.

  ghost predicate SameWorkers(s: State, u: State) {
    u.pc.Keys == s.pc.Keys
  }

  lemma {:induction false} AcceptFields(s: State, a: Action)
    requires Enabled(s, a) && IsAccept(a)
    ensures var u := Apply(s, a);
            && SameWorkers(s, u) && u.run == s.run && u.queue == s.queue && u.offloaded == s.offloaded
            && u.phase == s.phase && u.owner == (if a.Link? then s.owner[a.c := a.w] else s.owner)
            && u.freed == s.freed + Frees(s, a)
  {
    hide LockFree, FirstOf, Of;
  }

  lemma {:induction false} PoolFields(s: State, a: Action)
    requires Enabled(s, a) && IsPool(a)
    ensures var u := Apply(s, a);
            && u.pc == s.pc && u.owner == s.owner && u.listed == s.listed && u.head == s.head
            && u.freed == s.freed && u.accept == s.accept && u.phase == s.phase && u.lost == s.lost
            && u.offloaded <= s.offloaded && u.queue <= s.queue && Frees(s, a) == {}
            && (forall c :: c in u.epoll ==> c in s.epoll || (a.t in s.run && c == s.run[a.t].conn))
            && (forall t :: t in u.run ==> (t in s.run && u.run[t].conn == s.run[t].conn)
                                           || (a.Pop? && a.c in s.queue && u.run[t].conn == a.c))
  {
    hide LockFree;
  }

  lemma {:induction false} ShutdownFields(s: State, a: Action)
    requires Enabled(s, a) && IsShutdown(a)
    ensures var u := Apply(s, a);
            && u.pc == s.pc && u.owner == s.owner && u.listed <= s.listed && u.head == s.head
            && u.accept == s.accept && u.run == s.run && u.lost == s.lost && u.offloaded == s.offloaded
            && u.epoll <= s.epoll && u.queue <= s.queue && u.freed == s.freed + Frees(s, a)
            && (s.phase.Up? <==> a.Stop?) && !u.phase.Up? && (a.Stop? ==> s.accept.Ready?)
  {
  }

  lemma {:induction false} MoveFields(s: State, a: Action)
    requires Enabled(s, a) && IsMove(a)
    ensures var u := Apply(s, a);
            && SameWorkers(s, u) && u.owner == s.owner && u.accept == s.accept && u.run == s.run
            && u.phase == s.phase && u.lost == s.lost && u.epoll == s.epoll && u.freed == s.freed && u.head == s.head
            && u.listed == s.listed && Frees(s, a) == {}
  {
    hide LockFree, Reportable, Of;
  }

  lemma {:induction false} HandFields(s: State, a: Action)
    requires Enabled(s, a) && IsHand(a)
    ensures var u := Apply(s, a);
            && SameWorkers(s, u) && u.owner == s.owner && u.accept == s.accept && u.run == s.run
            && u.phase == s.phase && u.lost == s.lost && u.epoll == s.epoll && u.freed == s.freed && u.head == s.head
            && u.listed == s.listed && Frees(s, a) == {}
  {
    hide LockFree, Reportable, Of;
  }

  lemma {:induction false} FreeFields(s: State, a: Action)
    requires Enabled(s, a) && (a.DropConn? || a.Reap?)
    ensures var u := Apply(s, a);
            && SameWorkers(s, u) && u.owner == s.owner && u.accept == s.accept && u.run == s.run
            && u.phase == s.phase && u.lost == s.lost && u.epoll <= s.epoll && u.freed == s.freed + Frees(s, a)
            && u.head == s.head
  {
    hide LockFree, Reportable, Of;
  }

  lemma {:induction false} DrainFields(s: State, a: Action)
    requires Enabled(s, a) && IsDrain(a)
    ensures var u := Apply(s, a);
            && SameWorkers(s, u) && u.owner == s.owner && u.accept == s.accept && u.run == s.run
            && u.phase == s.phase && u.lost == s.lost && u.epoll <= s.epoll && u.freed == s.freed + Frees(s, a)
            && u.head == (if a.StartDrain? then s.head[a.w := a.head] else s.head)
  {
    hide LockFree, Reportable, Of;
  }

  lemma {:induction false} WorkerFields(s: State, a: Action)
    requires Enabled(s, a) && !IsAccept(a) && !IsPool(a) && !IsShutdown(a)
    ensures var u := Apply(s, a);
            && SameWorkers(s, u) && u.owner == s.owner && u.accept == s.accept && u.run == s.run
            && u.phase == s.phase && u.lost == s.lost && u.epoll <= s.epoll && u.freed == s.freed + Frees(s, a)
            && u.head == (if a.StartDrain? then s.head[a.w := a.head] else s.head)
  {
    hide Enabled, Apply, Frees;
    if IsMove(a) {
      MoveFields(s, a);
    } else if IsHand(a) {
      HandFields(s, a);
    } else if IsDrain(a) {
      DrainFields(s, a);
    } else {
      FreeFields(s, a);
    }
  }

  lemma {:induction false} WorkersStay(s: State, a: Action)
    requires Enabled(s, a)
    ensures SameWorkers(s, Apply(s, a))
  {
    hide Enabled, Apply, Frees;
    if IsAccept(a) {
      AcceptFields(s, a);
    } else if IsPool(a) {
      PoolFields(s, a);
    } else if IsShutdown(a) {
      ShutdownFields(s, a);
    } else {
      WorkerFields(s, a);
    }
  }

  lemma {:induction false} WorkerStep(s: State, a: Action, v: Worker)
    requires Inv(s) && Enabled(s, a) && !Racy(s, a) && v in s.pc
    ensures v in Apply(s, a).pc && WorkerOk(Apply(s, a), v)
  {
    hide Enabled, Apply, Racy, WorkerOk, ThreadOk, ConnOk, ViewKept, ActorOk;
    ActorIsOk(s, a);
    WorkersStay(s, a);
    if ByWorker(a, v) {
      if IsMove(a) { SelfMove(s, a, v); }
      if IsHand(a) { SelfHand(s, a, v); }
      if IsFree(a) { SelfFree(s, a, v); }
      if IsDrain(a) { SelfDrain(s, a, v); }
    } else {
      assert WorkerIs(s, v);
      if IsMove(a) { ViewMove(s, a, v); }
      if IsHand(a) { ViewHand(s, a, v); }
      if IsFree(a) { ViewFree(s, a, v); }
      if a.StartDrain? || a.EndDrain? { ViewDrain(s, a, v); }
      if a.DrainOne? { ViewDrainOne(s, a, v); }
      if IsPool(a) { ViewPool(s, a, v); }
      if a.Link? { ViewLink(s, a, v); }
      if a.Unlink? { ViewUnlink(s, a, v); }
      if a.Arm? || a.Discard? { ViewArm(s, a, v); }
      if IsRest(a) { ViewRest(s, a, v); }
      ViewFrame(s, Apply(s, a), v);
    }
  }

  lemma {:induction false} ThreadStep(s: State, a: Action, t: Thread)
    requires Inv(s) && Enabled(s, a) && !Racy(s, a) && t in Apply(s, a).run
    ensures ThreadOk(Apply(s, a), t)
  {
    hide Enabled, Apply, Racy, WorkerOk, ThreadOk, ConnOk, ActorOk;
    ActorIsOk(s, a);
    if IsMove(a) { ThreadMove(s, a, t); }
    if a.Mark? { ThreadMark(s, a, t); }
    if a.Submit? { ThreadSubmit(s, a, t); }
    if IsFree(a) { ThreadFree(s, a, t); }
    if a.StartDrain? || a.EndDrain? { ThreadDrain(s, a, t); }
    if a.DrainOne? { ThreadDrainOne(s, a, t); }
    if IsPool(a) { ThreadPool(s, a, t); }
    if IsAccept(a) { ThreadAccept(s, a, t); }
    if IsRest(a) { ThreadRest(s, a, t); }
  }

  lemma {:induction false} ConnStep(s: State, a: Action, c: Conn)
    requires Inv(s) && Enabled(s, a) && !Racy(s, a) && c in Apply(s, a).owner
    ensures ConnOk(Apply(s, a), c)
  {
    hide Enabled, Apply, Racy, WorkerOk, ThreadOk, ConnOk, ActorOk;
    ActorIsOk(s, a);
    if IsMove(a) { ConnMove(s, a, c); }
    if a.Mark? { ConnMark(s, a, c); }
    if a.Submit? { ConnSubmit(s, a, c); }
    if IsFree(a) { ConnFree(s, a, c); }
    if a.StartDrain? || a.EndDrain? { ConnDrain(s, a, c); }
    if a.DrainOne? { ConnDrainOne(s, a, c); }
    if IsPool(a) { ConnPool(s, a, c); }
    if a.Link? { ConnLink(s, a, c); }
    if a.Unlink? { ConnUnlink(s, a, c); }
    if a.Arm? || a.Discard? { ConnArm(s, a, c); }
    if IsRest(a) { ConnRest(s, a, c); }
  }

  lemma {:induction false} SeenStep(s: State, a: Action, c: Conn)
    requires Enabled(s, a) && ActorOk(s, a) && Seen(Apply(s, a), c)
    ensures c in Apply(s, a).owner
  {
    hide WorkerOk, ThreadOk, ConnOk, LockFree, PhaseOk, Reportable, ActorOk, PoolDo, ShutdownDo, FirstOf, AcceptDo;
    ActorKnown(s, a);
    assert Seen(s, c) ==> c in s.owner;
    if IsPool(a) {
      PoolFields(s, a);
    } else if IsShutdown(a) {
      ShutdownFields(s, a);
    } else if IsAccept(a) {
      SeenAccept(s, a, c);
    }
  }

  lemma {:induction false} SeenAccept(s: State, a: Action, c: Conn)
    requires Enabled(s, a) && ActorOk(s, a) && IsAccept(a) && Seen(Apply(s, a), c)
    ensures c in Apply(s, a).owner
  {
    hide WorkerOk, ThreadOk, ConnOk, LockFree, PhaseOk, ActorOk, FirstOf;
    ActorKnown(s, a);
    assert Seen(s, c) ==> c in s.owner;
  }

  lemma {:induction false} ActorKnown(s: State, a: Action)
    requires Enabled(s, a) && ActorOk(s, a)
    ensures KnownOk(s)
    ensures a.Mark? || a.Submit? || a.DropConn? ==> s.pc[a.w].conn in s.owner
    ensures a.DrainOne? ==> a.c in s.owner
    ensures a.EndDrain? ==> s.pc[a.w].kept <= s.listed
    ensures !s.accept.Ready? ==> s.accept.conn in s.owner && s.phase.Up?
    ensures a.Unlink? ==> OwnedBy(s, a.next, s.accept.w)
  {
    hide Tasked, Distinct, LockFree;
  }

  lemma {:induction false} RunStep(s: State, a: Action, t: Thread)
    requires Enabled(s, a) && ActorOk(s, a) && t in Apply(s, a).run
    ensures Apply(s, a).run[t].conn in Apply(s, a).owner
  {
    hide Enabled, Apply, Frees, WorkerOk, ThreadOk, ConnOk, PhaseOk, ActorOk;
    ActorKnown(s, a);
    if IsAccept(a) {
      AcceptFields(s, a);
    } else if IsPool(a) {
      PoolFields(s, a);
      if a.Pop? { assert a.c in s.queue ==> Seen(s, a.c); }
    } else if IsShutdown(a) {
      ShutdownFields(s, a);
    } else {
      WorkerFields(s, a);
    }
  }

  lemma {:induction false} HeadStep(s: State, a: Action, w: Worker)
    requires Enabled(s, a) && ActorOk(s, a) && w in Apply(s, a).head
    ensures OwnedBy(Apply(s, a), Apply(s, a).head[w], w)
  {
    hide WorkerOk, ThreadOk, ConnOk, LockFree, Reportable, PoolDo, ShutdownDo, WorkerDo, PhaseOk, ActorOk;
    ActorKnown(s, a);
    if IsPool(a) {
      PoolFields(s, a);
    } else if IsShutdown(a) {
      ShutdownFields(s, a);
    } else if !IsAccept(a) {
      WorkerFields(s, a);
    }
  }

  lemma {:induction false} AcceptOwn(s: State, a: Action)
    requires Enabled(s, a) && ActorOk(s, a) && !Racy(s, a) && IsAccept(a)
    ensures AcceptOk(Apply(s, a))
  {
    hide Tasked, Distinct, LockFree, ThreadOk, Reportable, FirstOf;
  }

  lemma {:induction false} AcceptOther(s: State, a: Action)
    requires Enabled(s, a) && ActorOk(s, a) && !Racy(s, a) && (a.DropConn? || a.Reap? || IsDrain(a))
    ensures AcceptOk(Apply(s, a))
  {
    hide Distinct, LockFree, Reportable, FirstOf, Tasked, ThreadOk, KnownOk, TodoOk, ConnOk;
    if !s.accept.Ready? { assert Pending(s, s.accept.conn); }
  }

  lemma {:induction false} AcceptStep(s: State, a: Action)
    requires Enabled(s, a) && ActorOk(s, a) && !Racy(s, a)
    ensures AcceptOk(Apply(s, a))
  {
    hide Enabled, Apply, Racy, Frees, WorkerOk, ThreadOk, ConnOk;
    if IsAccept(a) {
      AcceptOwn(s, a);
    } else if IsPool(a) {
      PoolFields(s, a);
    } else if IsShutdown(a) {
      ShutdownFields(s, a);
    } else if IsMove(a) {
      MoveFields(s, a);
    } else if IsHand(a) {
      HandFields(s, a);
    } else {
      AcceptOther(s, a);
    }
  }

  lemma {:induction false} PhaseStep(s: State, a: Action)
    requires Enabled(s, a) && ActorOk(s, a) && !Racy(s, a)
    ensures PhaseOk(Apply(s, a))
  {
    hide KnownOk, LockFree, WorkerOk, ThreadOk, ConnOk, AcceptOk, Racy, AcceptDo, WorkerDo, Frees, Reportable, FirstOf;
    ActorKnown(s, a);
    AcceptStep(s, a);
    if IsAccept(a) {
      AcceptFields(s, a);
    } else if !IsPool(a) && !IsShutdown(a) {
      WorkerFields(s, a);
      LateWorkersRest(s, a);
    }
  }

  /** Workers take steps only before they are joined. */
  lemma {:induction false} LateWorkersRest(s: State, a: Action)
    requires Enabled(s, a) && PhaseOk(s) && !IsAccept(a) && !IsPool(a) && !IsShutdown(a)
    ensures s.phase.Up? || s.phase.Stopped?
  {
    hide LockFree, Reportable, FirstOf, AcceptOk;
  }

  /** Every step of every thread that is not racy keeps the invariant. */
  lemma {:induction false} StepKeeps(s: State, a: Action)
    requires Inv(s) && Enabled(s, a) && !Racy(s, a)
    ensures Inv(Apply(s, a))
  {
    hide Enabled, Apply, Racy, WorkerOk, ThreadOk, ConnOk, ActorOk;
    ActorIsOk(s, a);
    PhaseStep(s, a);
    var u := Apply(s, a);
    forall c | Seen(u, c) ensures c in u.owner { SeenStep(s, a, c); }
    forall t | t in u.run ensures u.run[t].conn in u.owner { RunStep(s, a, t); }
    forall w | w in u.head ensures OwnedBy(u, u.head[w], w) { HeadStep(s, a, w); }
    WorkersStay(s, a);
    forall v | v in u.pc ensures WorkerOk(u, v) { WorkerStep(s, a, v); }
    forall t | t in u.run ensures ThreadOk(u, t) { ThreadStep(s, a, t); }
    forall c | c in u.owner ensures ConnOk(u, c) { ConnStep(s, a, c); }
  }

  /** A run from the start: the states it goes through and the steps between them. */
  ghost predicate Behaviour(st: seq<State>, acts: seq<Action>) {
    && |st| == |acts| + 1 && Init(st[0])
    && forall i :: 0 <= i < |acts| ==> Enabled(st[i], acts[i]) && st[i + 1] == Apply(st[i], acts[i])
  }

  /** None of the first n steps is racy. */
  ghost predicate RaceFree(st: seq<State>, acts: seq<Action>, n: nat)
    requires Behaviour(st, acts)
  {
    forall i :: 0 <= i < n && i < |acts| ==> !Racy(st[i], acts[i])
  }

  lemma {:induction false} InitHolds(s: State)
    requires Init(s)
    ensures Inv(s)
  {
  }

  lemma {:induction false} RunKeeps(st: seq<State>, acts: seq<Action>, i: nat)
    requires Behaviour(st, acts) && i < |st| && RaceFree(st, acts, i)
    ensures Inv(st[i])
  {
    hide Inv, Enabled, Apply, Racy;
    if i == 0 {
      InitHolds(st[0]);
    } else {
      RunKeeps(st, acts, i - 1);
      StepKeeps(st[i - 1], acts[i - 1]);
    }
  }

  // ---- what can go wrong, exactly ------------------------------------------------------------

  lemma {:induction false} ListedUnfreed(s: State, w: Worker, c: Conn)
    requires Inv(s) && w in s.pc && !s.pc[w].Draining? && c in Of(s, s.listed, w)
    ensures c !in s.freed
  {
    ListedLive(s, w, c);
  }

  lemma {:induction false} ListedAtEnd(s: State, c: Conn)
    requires Inv(s) && s.phase.PoolGone? && c in s.listed
    ensures c in s.owner && c !in s.freed && c !in s.lost
  {
    assert Seen(s, c) && ConnOk(s, c);
  }

  /** Steps of workers, pool threads and shutdown never touch a freed connection. */
  lemma {:induction false} TouchSafe(s: State, a: Action)
    requires Inv(s) && Enabled(s, a) && !a.Link? && !a.Unlink?
    ensures Touches(s, a) !! s.freed
  {
    hide Inv, Tasked, Distinct;
    ActorIsOk(s, a);
    if a.Reap? || a.DropConn? {
      forall c | c in Of(s, s.listed, a.w) ensures c !in s.freed { ListedUnfreed(s, a.w, c); }
    }
    if a.CleanUp? { ListedAtEnd(s, a.c); }
  }

  /** Linking writes to freed memory exactly when its worker is draining and has freed the
      head of its list. */
  lemma {:induction false} LinkExact(s: State, a: Action)
    requires Inv(s) && Enabled(s, a) && a.Link?
    ensures Touches(s, a) !! s.freed <==> !Racy(s, a)
  {
    hide Inv, LockFree;
    ActorIsOk(s, a);
    assert !Seen(s, a.c);
    if !s.pc[a.w].Draining? && a.head.Some? { ListedUnfreed(s, a.w, a.head.value); }
  }

  /** Where the connection of a failed ADD is. */
  lemma {:induction false} PendingPlace(s: State)
    requires Inv(s) && s.accept.Linked?
    ensures var c, w := s.accept.conn, s.accept.w;
            && w in s.pc && c in s.owner && s.owner[c] == w && c !in s.freed
            && (s.pc[w].Draining? ==> (c in s.pc[w].left) == (c !in s.lost))
            && (!s.pc[w].Draining? && c in s.lost ==> s.pc[w].Exited? && c !in s.listed)
  {
    assert ConnOk(s, s.accept.conn);
    assert WorkerOk(s, s.accept.w);
    assert Pending(s, s.accept.conn);
  }

  lemma {:induction false} WalkedByOwner(s: State, c: Conn, w: Worker)
    requires Inv(s) && c in s.owner && s.owner[c] == w && w in s.pc
    ensures Walked(s, c) <==> s.pc[w].Draining? && c in s.pc[w].left
  {
    forall v | v in s.pc && s.pc[v].Draining? && c in s.pc[v].left ensures v == w { assert WorkerOk(s, v); }
  }

  /** Undoing a registration goes wrong exactly when the worker has begun or ended a drain
      since the link, and has freed, or is about to visit, what the unlinking relies on. */
  lemma {:induction false} UnlinkExact(s: State, a: Action)
    requires Inv(s) && Enabled(s, a) && a.Unlink?
    ensures Faulty(s, a) <==> Racy(s, a)
  {
    hide Inv, LockFree, Walked;
    var c, w := s.accept.conn, s.accept.w;
    PendingPlace(s);
    WalkedByOwner(s, c, w);
    assert PhaseOk(s) && KnownOk(s) by { ActorIsOk(s, a); }
    if !s.pc[w].Draining? {
      forall x | x in Of(s, s.listed, w) ensures x !in s.freed { ListedUnfreed(s, w, x); }
      if c in s.lost { ListDamage(s, a); }
    }
  }

  lemma {:induction false} ListDamage(s: State, a: Action)
    requires Enabled(s, a) && a.Unlink? && s.accept.conn in s.lost && s.accept.conn !in s.listed
    requires !s.pc[s.accept.w].Draining? && OwnedBy(s, a.next, s.accept.w)
    ensures Apply(s, a).listed == s.listed - {s.accept.conn} <==> Of(s, s.listed, s.accept.w) == Opt(a.next)
  {
    var c, w := s.accept.conn, s.accept.w;
    var mine, others := Of(s, s.listed, w), s.listed - Of(s, s.listed, w);
    assert Apply(s, a).listed == others + Opt(a.next);
    assert s.listed - {c} == others + mine;
    assert others !! Opt(a.next) by {
      forall x | x in others && x in Opt(a.next) ensures false { }
    }
    if others + Opt(a.next) == others + mine {
      forall x ensures x in mine <==> x in Opt(a.next) {
        assert x in others + mine <==> x in others + Opt(a.next);
      }
    }
  }

  /** The exact condition: with the invariant, a step goes wrong if and only if it is one of
      the races of a registration. */
  lemma {:induction false} FaultExact(s: State, a: Action)
    requires Inv(s) && Enabled(s, a)
    ensures Faulty(s, a) <==> Racy(s, a)
  {
    hide Inv, Apply, LockFree, Walked;
    if a.Unlink? {
      UnlinkExact(s, a);
    } else if a.Link? {
      LinkExact(s, a);
    } else {
      TouchSafe(s, a);
      if !a.Discard? { FreesPending(s, a); }
    }
  }

  lemma {:induction false} FreesPending(s: State, a: Action)
    requires Inv(s) && Enabled(s, a) && !a.Link? && !a.Unlink? && !a.Discard?
    ensures (exists c :: Pending(s, c) && c in Frees(s, a)) <==> Racy(s, a)
  {
    hide Inv, Tasked, Distinct, LockFree;
    ActorIsOk(s, a);
    if !s.accept.Ready? {
      assert Pending(s, s.accept.conn);
      assert PhaseOk(s) && AcceptOk(s);
      if s.accept.conn in s.offloaded { OffloadedSettled(s, s.accept.conn); }
    }
  }

  /** In every interleaving, up to and including the first racy step: a step goes wrong if
      and only if it is racy.  So without a race no thread touches a freed connection. */
  lemma {:induction false} Ownership(st: seq<State>, acts: seq<Action>, i: nat)
    requires Behaviour(st, acts) && i < |acts| && RaceFree(st, acts, i)
    ensures Faulty(st[i], acts[i]) <==> Racy(st[i], acts[i])
    ensures !Racy(st[i], acts[i]) ==> Touches(st[i], acts[i]) !! st[i].freed
  {
    hide Inv, Enabled, Apply, Touches, Racy, Walked;
    assert Enabled(st[i], acts[i]);
    RunKeeps(st, acts, i);
    FaultExact(st[i], acts[i]);
  }

  /** Freeing a connection under registration leaves the accept loop with a dangling pointer:
      if its ADD then fails, it touches freed memory. */
  lemma {:induction false} DanglingArm(s: State, a: Action, next: Option<Conn>)
    requires Inv(s) && Enabled(s, a) && Racy(s, a) && (a.Reap? || a.DrainOne?)
    requires Enabled(Apply(s, a), Unlink(next))
    ensures !(Touches(Apply(s, a), Unlink(next)) !! Apply(s, a).freed)
  {
    hide Inv, LockFree;
    var c := s.accept.conn;
    if c in s.offloaded { OffloadedSettled(s, c); }
    assert c in Touches(Apply(s, a), Unlink(next));
  }

  /** Unlinking a connection the drain stands on: once the accept loop has freed it, the
      drain's next step touches it. */
  lemma {:induction false} CutWalk(s: State, a: Action)
    requires Inv(s) && Enabled(s, a) && a.Unlink? && s.pc[s.accept.w].Draining?
    requires s.accept.conn in s.pc[s.accept.w].left
    ensures var c, w, u := s.accept.conn, s.accept.w, Apply(s, a);
            && Racy(s, a) && Enabled(u, Discard) && Enabled(Apply(u, Discard), DrainOne(w, c))
            && !(Touches(Apply(u, Discard), DrainOne(w, c)) !! Apply(u, Discard).freed)
  {
    hide Inv, LockFree;
    var c, w := s.accept.conn, s.accept.w;
    assert c in Touches(Apply(Apply(s, a), Discard), DrainOne(w, c));
  }

  // ---- freed exactly once ---------------------------------------------------------------------

  lemma {:induction false} FreedGrows(s: State, a: Action, c: Conn)
    requires Enabled(s, a)
    ensures c in Apply(s, a).freed <==> c in s.freed || c in Frees(s, a)
  {
    hide Enabled, Apply, Frees;
    if IsAccept(a) {
      AcceptFields(s, a);
    } else if IsPool(a) {
      PoolFields(s, a);
    } else if IsShutdown(a) {
      ShutdownFields(s, a);
    } else {
      WorkerFields(s, a);
    }
  }

  lemma {:induction false} FreesTouched(s: State, a: Action, c: Conn)
    requires Enabled(s, a) && c in Frees(s, a)
    ensures c in Touches(s, a) && !a.Link? && !a.Unlink?
  {
    hide LockFree, Reportable;
  }

  /** What a worker's step that frees knows about its victim. */
  lemma {:induction false} FreeFacts(s: State, a: Action, c: Conn)
    requires Enabled(s, a) && ActorOk(s, a) && c in Frees(s, a) && !a.CleanUp? && !a.Discard?
    ensures (a.DropConn? || a.Reap? || a.DrainOne?) && c !in s.offloaded && c in s.owner && s.owner[c] == a.w
    ensures !a.DrainOne? ==> LockFree(s, a.w)
  {
    hide Tasked, Distinct, LockFree;
  }

  /** No step, racy or not, frees a connection twice or while a task for it is queued or still
      owns it.  Only a drain's free, which takes no lock, can overlap the last stage of one. */
  lemma {:induction false} FreeSafe(s: State, a: Action)
    requires Inv(s) && Enabled(s, a)
    ensures Frees(s, a) !! s.freed
    ensures forall c :: c in Frees(s, a) ==> !Tasked(s, c)
    ensures forall c :: c in Frees(s, a) && !a.DrainOne? ==> forall t :: t in s.run ==> s.run[t].conn != c
  {
    hide Inv, Tasked, ActorOk, Touches, LockFree;
    ActorIsOk(s, a);
    forall c | c in Frees(s, a)
      ensures c !in s.freed && !Tasked(s, c) && (!a.DrainOne? ==> forall t :: t in s.run ==> s.run[t].conn != c)
    {
      FreesTouched(s, a, c);
      TouchSafe(s, a);
      if a.CleanUp? {
        NoTaskAtEnd(s, c);
      } else if a.Discard? {
        PendingIdle(s);
      } else {
        FreeFacts(s, a, c);
        TaskedMeansOffloaded(s, c);
        NoThread(s, a.w, c);
      }
    }
  }

  lemma {:induction false} NoTaskAtEnd(s: State, c: Conn)
    requires Inv(s) && s.phase.PoolGone?
    ensures !Tasked(s, c) && s.run == map[]
  {
  }

  lemma {:induction false} PendingIdle(s: State)
    requires Inv(s) && !s.accept.Ready?
    ensures !Tasked(s, s.accept.conn) && forall t :: t in s.run ==> s.run[t].conn != s.accept.conn
  {
    var c := s.accept.conn;
    assert ConnOk(s, c) && Pending(s, c);
    forall t | t in s.run ensures s.run[t].conn != c { assert ThreadOk(s, t); }
  }

  /** With the worker's lock free, a thread on its connection still has the flag up. */
  lemma {:induction false} NoThread(s: State, w: Worker, c: Conn)
    requires Inv(s) && c !in s.offloaded
    ensures c in s.owner && s.owner[c] == w && LockFree(s, w) ==> forall t :: t in s.run ==> s.run[t].conn != c
  {
    forall t | t in s.run && s.run[t].conn == c ensures s.run[t].stage.Cleared? { assert ThreadOk(s, t); }
  }

  /** How often a run frees a connection. */
  ghost function FreeCount(st: seq<State>, acts: seq<Action>, c: Conn): nat
    requires Behaviour(st, acts)
    decreases |acts|
  {
    if |acts| == 0 then 0
    else
      var n := |acts| - 1;
      FreeCount(st[..n + 1], acts[..n], c) + (if c in Frees(st[n], acts[n]) then 1 else 0)
  }

  /** Nothing is freed twice, and nothing is freed under a task, up to and including the first
      racy step. */
  lemma {:induction false} FreedOnce(st: seq<State>, acts: seq<Action>, c: Conn)
    requires Behaviour(st, acts) && (|acts| > 0 ==> RaceFree(st, acts, |acts| - 1))
    ensures FreeCount(st, acts, c) == if c in st[|acts|].freed then 1 else 0
    ensures |acts| > 0 && c in Frees(st[|acts| - 1], acts[|acts| - 1]) ==> !Tasked(st[|acts| - 1], c)
    decreases |acts|
  {
    hide Inv, Enabled, Apply, Frees, Racy, Tasked;
    if |acts| > 0 {
      var n := |acts| - 1;
      FreedOnce(st[..n + 1], acts[..n], c);
      RunKeeps(st, acts, n);
      assert Enabled(st[n], acts[n]) && st[n + 1] == Apply(st[n], acts[n]);
      FreeSafe(st[n], acts[n]);
      FreedGrows(st[n], acts[n], c);
    }
  }

  /** Once the server is cleaned up after a run without a race, every connection has been
      freed exactly once, except precisely those linked while their worker was draining. */
  lemma {:induction false} AllFreed(st: seq<State>, acts: seq<Action>, c: Conn)
    requires Behaviour(st, acts) && RaceFree(st, acts, |acts|)
    requires st[|acts|].phase.Done? && c in st[|acts|].owner
    ensures FreeCount(st, acts, c) == if c in st[|acts|].lost then 0 else 1
  {
    hide Enabled, Apply, Racy, WorkerOk, ThreadOk;
    RunKeeps(st, acts, |acts|);
    FreedOnce(st, acts, c);
    assert ConnOk(st[|acts|], c);
  }

  // ---- without an epoll_wait failure ------------------------------------------------------------

  /** No epoll_wait failure ends a worker early, and no idle sweep hits a connection that is
      not armed yet. */
  ghost predicate Orderly(s: State, a: Action) {
    !(a.StartDrain? && a.failed) && !(a.Reap? && !s.accept.Ready? && s.accept.conn in a.victims)
  }

  /** Workers end only after the accept loop has returned. */
  ghost predicate StopOrder(s: State) {
    s.lost == {} && (s.phase.Up? ==> forall w :: w in s.pc ==> !Ending(s, w))
  }

  lemma {:induction false} OrderlyStep(s: State, a: Action)
    requires Inv(s) && StopOrder(s) && Enabled(s, a) && Orderly(s, a)
    ensures !Racy(s, a) && StopOrder(Apply(s, a))
  {
    hide Inv, Tasked, Distinct, LockFree, WorkerOk, ThreadOk, ConnOk, KnownOk, Reportable, Apply;
    ActorIsOk(s, a);
    assert PhaseOk(s) && AcceptOk(s);
    assert (a.Link? || a.DrainOne?) ==> !Ending(s, a.w) || !s.phase.Up?;
    assert a.Unlink? ==> !Ending(s, s.accept.w);
    OrderStays(s, a);
  }

  lemma {:induction false} OrderStays(s: State, a: Action)
    requires StopOrder(s) && Enabled(s, a) && Orderly(s, a)
    ensures StopOrder(Apply(s, a))
  {
    hide LockFree, Reportable, FirstOf, PoolDo, ShutdownDo;
    if IsPool(a) {
      PoolFields(s, a);
    } else if IsShutdown(a) {
      ShutdownFields(s, a);
    }
    assert a.Link? ==> !Ending(s, a.w);
  }

  lemma {:induction false} OrderlyRun(st: seq<State>, acts: seq<Action>, i: nat)
    requires Behaviour(st, acts) && i < |st|
    requires forall j :: 0 <= j < |acts| ==> Orderly(st[j], acts[j])
    ensures RaceFree(st, acts, i) && Inv(st[i]) && StopOrder(st[i])
  {
    hide Inv, Enabled, Apply, Racy, Orderly, StopOrder;
    if i == 0 {
      InitHolds(st[0]);
      assert StopOrder(st[0]) by { StartOrder(st[0]); }
    } else {
      OrderlyRun(st, acts, i - 1);
      OrderlyStep(st[i - 1], acts[i - 1]);
      StepKeeps(st[i - 1], acts[i - 1]);
    }
  }

  lemma {:induction false} StartOrder(s: State)
    requires Init(s)
    ensures StopOrder(s)
  {
  }

  /** In every such run no step goes wrong, and after the clean-up every connection has been
      freed exactly once. */
  lemma {:induction false} OrderlySafe(st: seq<State>, acts: seq<Action>)
    requires Behaviour(st, acts) && forall j :: 0 <= j < |acts| ==> Orderly(st[j], acts[j])
    ensures forall i :: 0 <= i < |acts| ==> !Faulty(st[i], acts[i])
    ensures st[|acts|].phase.Done? ==> forall c :: c in st[|acts|].owner ==> FreeCount(st, acts, c) == 1
  {
    hide Inv, Enabled, Apply, Racy, Orderly, Faulty, Init;
    OrderlyRun(st, acts, |acts|);
    forall i | 0 <= i < |acts| ensures !Faulty(st[i], acts[i]) { Ownership(st, acts, i); }
    if st[|acts|].phase.Done? {
      forall c | c in st[|acts|].owner ensures FreeCount(st, acts, c) == 1 { AllFreed(st, acts, c); }
    }
  }

  // ---- the exceptions are real -----------------------------------------------------------------

  /** A run without a race leads to s. */
  ghost predicate Reaches(s: State) {
    exists st: seq<State>, acts: seq<Action> :: Behaviour(st, acts) && RaceFree(st, acts, |acts|) && st[|acts|] == s
  }

  lemma {:induction false} ReachStep(s: State, a: Action, u: State)
    requires Reaches(s) && Enabled(s, a) && !Racy(s, a) && Apply(s, a) == u
    ensures Reaches(u)
  {
    hide Enabled, Apply, Racy;
    var st: seq<State>, acts: seq<Action> :|
      Behaviour(st, acts) && RaceFree(st, acts, |acts|) && st[|acts|] == s;
    var st', acts' := st + [u], acts + [a];
    assert Behaviour(st', acts');
    assert RaceFree(st', acts', |acts'|);
    assert st'[|acts'|] == u;
  }

  const BOOT := State(
    map[0 := Waiting], map[], {}, map[], {}, {}, {}, multiset{}, map[], Ready, Up, {})

  /** Worker 0 with one connection, 1; the rest as given. */
  ghost function One(p: Pc, off: set<Conn>, q: multiset<Conn>, run: map<Thread, Run>): State {
    BOOT.(pc := map[0 := p], owner := map[1 := 0], listed := {1}, epoll := {1}, offloaded := off, queue := q,
          run := run)
  }

  lemma {:induction false} BootReached()
    ensures Reaches(BOOT)
  {
    var st, acts: seq<Action> := [BOOT], [];
    assert Behaviour(st, acts) && RaceFree(st, acts, 0) && st[|acts|] == BOOT;
  }

  lemma {:induction false} RegisteredReached()
    ensures Reaches(One(Waiting, {}, multiset{}, map[]))
  {
    hide Reaches;
    BootReached();
    var s, u := One(Waiting, {}, multiset{}, map[]).(epoll := {}, accept := Linked(1, 0, None)),
                One(Waiting, {}, multiset{}, map[]);
    assert Of(BOOT, BOOT.listed, 0) == {};
    assert Apply(BOOT, Link(1, 0, None)) == s;
    ReachStep(BOOT, Link(1, 0, None), s);
    assert Apply(s, Arm) == u;
    ReachStep(s, Arm, u);
  }

  lemma {:induction false} ServingReached()
    ensures Reaches(One(Serving(1, []), {}, multiset{}, map[]))
  {
    hide Reaches;
    RegisteredReached();
    var s := One(Waiting, {}, multiset{}, map[]);
    assert Of(s, s.epoll, 0) == {1};
    ReachStep(s, Wait(0, [1]), One(Batch([1]), {}, multiset{}, map[]));
    assert [1][1..] == [];
    ReachStep(One(Batch([1]), {}, multiset{}, map[]), Look(0), One(Serving(1, []), {}, multiset{}, map[]));
  }

  lemma {:induction false} HandedOffReached()
    ensures Reaches(One(Batch([]), {1}, multiset{1}, map[]))
  {
    hide Reaches;
    ServingReached();
    var s, m := One(Serving(1, []), {}, multiset{}, map[]), One(Marked(1, []), {1}, multiset{}, map[]);
    ReachStep(s, Mark(0), m);
    var n := One(Submitted(1, []), {1}, multiset{1}, map[]);
    ReachStep(m, Submit(0, true), n);
    ReachStep(n, Recheck(0), One(Batch([]), {1}, multiset{1}, map[]));
  }

  /** As One, after the server was told to stop, with worker 0 draining its only connection. */
  ghost function Stopping(off: set<Conn>, q: multiset<Conn>, run: map<Thread, Run>): State {
    One(Draining({1}, {}), off, q, run).(phase := Stopped, head := map[0 := Some(1)])
  }

  lemma {:induction false} DrainingReached()
    ensures Reaches(Stopping({1}, multiset{1}, map[]))
  {
    hide Reaches;
    HandedOffReached();
    var s, w := One(Batch([]), {1}, multiset{1}, map[]), One(Waiting, {1}, multiset{1}, map[]);
    assert Apply(s, Reap(0, {})) == w;
    ReachStep(s, Reap(0, {}), w);
    var x := w.(phase := Stopped);
    ReachStep(w, Stop, x);
    assert Of(x, x.listed, 0) == {1};
    ReachStep(x, StartDrain(0, Some(1), false), Stopping({1}, multiset{1}, map[]));
  }

  lemma {:induction false} LockedReached()
    ensures Reaches(Stopping({1}, multiset{}, map[2 := Run(1, Locked)]))
  {
    hide Reaches;
    DrainingReached();
    var a := Stopping({1}, multiset{}, map[2 := Run(1, Working)]);
    var b := Stopping({1}, multiset{}, map[2 := Run(1, Snapped)]);
    ReachStep(Stopping({1}, multiset{1}, map[]), Pop(2, 1), a);
    ReachStep(a, Snapshot(2), b);
    ReachStep(b, TakeLock(2), Stopping({1}, multiset{}, map[2 := Run(1, Locked)]));
  }

  /** Worker 0 has offloaded connection 1 and drains its list; thread 2 has dropped the flag
      but is not past its epoll call when the drain, which takes no lock, frees 1. */
  lemma {:induction false} DrainOverlaps() returns (s: State)
    ensures Reaches(s) && Enabled(s, DrainOne(0, 1)) && 1 in Frees(s, DrainOne(0, 1))
    ensures 2 in s.run && s.run[2] == Run(1, Cleared)
  {
    hide Reaches;
    LockedReached();
    s := Stopping({}, multiset{}, map[2 := Run(1, Cleared)]);
    ReachStep(Stopping({1}, multiset{}, map[2 := Run(1, Locked)]), Clear(2), s);
  }

  /** After a failing epoll_wait worker 0 drains its list and frees connection 1, still the
      head of its list; the accept loop, still running, links connection 2 in front of it. */
  lemma {:induction false} LinkWritesFreed() returns (s: State)
    ensures Reaches(s) && Enabled(s, Link(2, 0, Some(1))) && Racy(s, Link(2, 0, Some(1)))
    ensures 1 in s.freed && 1 in Touches(s, Link(2, 0, Some(1)))
  {
    hide Reaches;
    RegisteredReached();
    var a := One(Waiting, {}, multiset{}, map[]);
    assert Of(a, a.listed, 0) == {1};
    var b := One(Draining({1}, {}), {}, multiset{}, map[]).(head := map[0 := Some(1)]);
    ReachStep(a, StartDrain(0, Some(1), true), b);
    s := b.(pc := map[0 := Draining({}, {})], freed := {1}, epoll := {});
    assert b.pc[0].left - {1} == {} && b.epoll - {1} == {};
    assert Apply(b, DrainOne(0, 1)) == s;
    ReachStep(b, DrainOne(0, 1), s);
  }

  /** The arm window: worker 0 drains between the link of connection 1 and its ADD, and is
      about to free it while the accept loop still holds it. */
  lemma {:induction false} ArmWindow() returns (s: State)
    ensures Reaches(s) && Enabled(s, DrainOne(0, 1)) && Racy(s, DrainOne(0, 1))
    ensures s.accept == Linked(1, 0, None) && 1 in Frees(s, DrainOne(0, 1))
  {
    hide Reaches;
    BootReached();
    var a := One(Waiting, {}, multiset{}, map[]).(epoll := {}, accept := Linked(1, 0, None));
    assert Of(BOOT, BOOT.listed, 0) == {};
    assert Apply(BOOT, Link(1, 0, None)) == a;
    ReachStep(BOOT, Link(1, 0, None), a);
    assert Of(a, a.listed, 0) == {1};
    s := a.(pc := map[0 := Draining({1}, {})], head := map[0 := Some(1)]);
    ReachStep(a, StartDrain(0, Some(1), true), s);
  }

  lemma {:induction false} LateReached() returns (s: State)
    ensures s == One(Draining({}, {}), {}, multiset{}, map[]).(lost := {1}, head := map[0 := Some(1)]) && Reaches(s)
  {
    hide Reaches;
    BootReached();
    var a := BOOT.(pc := map[0 := Draining({}, {})], head := map[0 := None]);
    assert Of(BOOT, BOOT.listed, 0) == {};
    ReachStep(BOOT, StartDrain(0, None, true), a);
    var b := a.(owner := map[1 := 0], listed := {1}, lost := {1}, head := map[0 := Some(1)],
                accept := Linked(1, 0, None));
    assert Apply(a, Link(1, 0, None)) == b;
    ReachStep(a, Link(1, 0, None), b);
    s := b.(epoll := {1}, accept := Ready);
    ReachStep(b, Arm, s);
  }

  /** From a state with all workers gone and nothing left to clean up. */
  lemma {:induction false} ShutDown(s: State)
    requires Reaches(s) && s.phase.Up? && s.accept.Ready? && s.run == map[] && s.queue == multiset{} && s.listed == {}
    requires forall w :: w in s.pc ==> s.pc[w].Exited?
    ensures Reaches(s.(phase := Done))
  {
    hide Reaches;
    ReachStep(s, Stop, s.(phase := Stopped));
    ReachStep(s.(phase := Stopped), Join, s.(phase := Joined));
    ReachStep(s.(phase := Joined), DestroyPool, s.(phase := PoolGone));
    ReachStep(s.(phase := PoolGone), Close, s.(phase := Done));
  }

  /** A connection registered while its worker drains after a failing epoll_wait is never
      freed. */
  lemma {:induction false} LateIsLost() returns (s: State)
    ensures Reaches(s) && s.phase.Done? && 1 in s.owner && 1 !in s.freed
  {
    hide Reaches;
    var c := LateReached();
    assert Of(c, c.listed, 0) == {1};
    var d := c.(pc := map[0 := Exited], listed := {});
    ReachStep(c, EndDrain(0), d);
    ShutDown(d);
    s := d.(phase := Done);
  }

  // ---- nobody is stranded ---------------------------------------------------------------

  /** A registered connection is in its worker's epoll set until it is freed. */
  ghost predicate Watched(s: State) {
    forall c :: c in s.owner && c !in s.freed && !Pending(s, c) ==> c in s.epoll
  }

  /** While there is a pool, whoever raised a connection's flag is about to submit it, or a task
      is out that will take the flag down. */
  ghost predicate Tended(s: State) {
    !s.phase.PoolGone? && !s.phase.Done? ==> forall c :: c in s.offloaded ==> Tasked(s, c) || MarkedBy(s, c)
  }

  ghost predicate MarkedBy(s: State, c: Conn) {
    exists w :: w in s.pc && s.pc[w].Marked? && s.pc[w].conn == c
  }

  lemma {:induction false} WatchedStep(s: State, a: Action)
    requires Watched(s) && Enabled(s, a)
    ensures Watched(Apply(s, a))
  {
    forall c | c in Apply(s, a).owner ensures Apply(s, a).epoll >= s.epoll - Frees(s, a) { EpollKept(s, a); }
    forall c | c in Apply(s, a).owner ensures c in Apply(s, a).freed <==> c in s.freed || c in Frees(s, a) {
      FreedGrows(s, a, c);
    }
    OwnersStay(s, a);
    hide Enabled, Apply, Frees;
  }

  /** A step takes out of the epoll sets only what it frees. */
  lemma {:induction false} EpollKept(s: State, a: Action)
    requires Enabled(s, a)
    ensures s.epoll - Frees(s, a) <= Apply(s, a).epoll
  {
    hide LockFree, FirstOf, Of, Opt, Reportable, Distinct;
  }

  /** A connection comes into being under registration, and leaves it watched or freed. */
  lemma {:induction false} OwnersStay(s: State, a: Action)
    requires Enabled(s, a)
    ensures forall c :: c in Apply(s, a).owner && !Pending(Apply(s, a), c) ==>
              c in s.owner && (Pending(s, c) ==> c in Apply(s, a).epoll || c in Frees(s, a))
  {
    if IsAccept(a) {
      AcceptOwners(s, a);
    } else if IsPool(a) {
      PoolFields(s, a);
    } else if IsShutdown(a) {
      ShutdownFields(s, a);
    } else {
      WorkerFields(s, a);
    }
    hide Enabled, Apply, Frees;
  }

  lemma {:induction false} AcceptOwners(s: State, a: Action)
    requires Enabled(s, a) && IsAccept(a)
    ensures forall c :: c in Apply(s, a).owner && !Pending(Apply(s, a), c) ==>
              c in s.owner && (Pending(s, c) ==> c in Apply(s, a).epoll || c in Frees(s, a))
  {
    hide LockFree, FirstOf, Of, Opt;
  }

  /** What a worker's step does to marks, flags and tasks. */
  lemma {:induction false} MarkStep(s: State, a: Action, c: Conn, w: Worker)
    requires Enabled(s, a) && !IsAccept(a) && !IsPool(a) && !IsShutdown(a)
    ensures var u := Apply(s, a);
            && u.run == s.run && (c in s.queue ==> c in u.queue)
            && (w in s.pc && s.pc[w].Marked? && s.pc[w].conn == c ==>
                  (w in u.pc && u.pc[w] == s.pc[w]) || c in u.queue || c !in u.offloaded)
            && (c in u.offloaded && c !in s.offloaded ==> a.w in u.pc && u.pc[a.w].Marked? && u.pc[a.w].conn == c)
  {
    hide LockFree, FirstOf, Of, Opt, Reportable, Distinct;
    if a.Submit? { assert Apply(s, a).pc == s.pc[a.w := Apply(s, a).pc[a.w]]; }
  }

  lemma {:induction false} TendedWorker(s: State, a: Action, c: Conn)
    requires Enabled(s, a) && !IsAccept(a) && !IsPool(a) && !IsShutdown(a) && c in Apply(s, a).offloaded
    requires c in s.offloaded ==> Tasked(s, c) || MarkedBy(s, c)
    ensures Tasked(Apply(s, a), c) || MarkedBy(Apply(s, a), c)
  {
    hide Enabled, Apply;
    MarkStep(s, a, c, 0);
    if w :| w in s.pc && s.pc[w].Marked? && s.pc[w].conn == c { MarkStep(s, a, c, w); }
  }

  lemma {:induction false} TendedPool(s: State, a: Action, c: Conn)
    requires Enabled(s, a) && IsPool(a) && c in Apply(s, a).offloaded && (Tasked(s, c) || MarkedBy(s, c))
    ensures Tasked(Apply(s, a), c) || MarkedBy(Apply(s, a), c)
  {
    var u := Apply(s, a);
    if w :| w in s.pc && s.pc[w].Marked? && s.pc[w].conn == c {
      assert u.pc[w] == s.pc[w];
    } else if c in s.queue {
      assert c in u.queue || (a.Pop? && u.run[a.t] == Run(c, Working));
    } else {
      var t :| t in s.run && s.run[t].conn == c && !s.run[t].stage.Cleared?;
      assert t in u.run && u.run[t].conn == c && !u.run[t].stage.Cleared?;
    }
  }

  lemma {:induction false} TendedStep(s: State, a: Action)
    requires Tended(s) && Enabled(s, a)
    ensures Tended(Apply(s, a))
  {
    hide Tasked, MarkedBy, LockFree;
    var u := Apply(s, a);
    if !u.phase.PoolGone? && !u.phase.Done? {
      forall c | c in u.offloaded ensures Tasked(u, c) || MarkedBy(u, c) {
        if IsPool(a) {
          TendedPool(s, a, c);
        } else if IsAccept(a) || IsShutdown(a) {
          TendedOther(s, a, c);
        } else {
          TendedWorker(s, a, c);
        }
      }
    }
  }

  lemma {:induction false} TendedOther(s: State, a: Action, c: Conn)
    requires Enabled(s, a) && (IsAccept(a) || IsShutdown(a)) && !Apply(s, a).phase.PoolGone?
    requires Tasked(s, c) || MarkedBy(s, c)
    ensures Tasked(Apply(s, a), c) || MarkedBy(Apply(s, a), c)
  {
    hide LockFree, FirstOf, Of, Opt;
    var u := Apply(s, a);
    assert u.run == s.run && (u.queue == s.queue || a.DestroyPool?);
    if w :| w in s.pc && s.pc[w].Marked? && s.pc[w].conn == c { assert u.pc[w] == s.pc[w]; }
  }

  lemma {:induction false} TendedRuns(st: seq<State>, acts: seq<Action>, i: nat)
    requires Behaviour(st, acts) && i <= |acts|
    ensures Watched(st[i]) && Tended(st[i])
  {
    hide Watched, Tended, Enabled, Apply;
    if i == 0 {
      WatchedStart(st[0]);
    } else {
      TendedRuns(st, acts, i - 1);
      WatchedStep(st[i - 1], acts[i - 1]);
      TendedStep(st[i - 1], acts[i - 1]);
    }
  }

  lemma {:induction false} WatchedStart(s: State)
    requires Init(s)
    ensures Watched(s) && Tended(s)
  {
  }

  /** A worker turns away from a connection it has begun on only when it is done with it, has left
      it to the pool, or finds the flag up. */
  lemma {:induction false} NotAbandoned(s: State, a: Action)
    requires Enabled(s, a) && !IsAccept(a) && !IsPool(a) && !IsShutdown(a)
    requires a.w in s.pc && (s.pc[a.w].Serving? || s.pc[a.w].Marked? || s.pc[a.w].Submitted?)
    ensures var c, p := s.pc[a.w].conn, Apply(s, a).pc[a.w];
            p.Batch? ==> a.Finish? || a.Leave? || c in Apply(s, a).offloaded
  {
    hide LockFree, FirstOf, Of, Opt, Reportable, Distinct;
  }

  /** In every run, racy or not, a registered connection that is not freed is watched by its
      worker, and served when the worker comes to it, unless its flag is up; and while there is a
      pool, a flag that is up has somebody who will take it down. */
  lemma {:induction false} NotStranded(st: seq<State>, acts: seq<Action>, i: nat, c: Conn)
    requires Behaviour(st, acts) && i <= |acts|
    requires var s := st[i]; c in s.owner && c !in s.freed && !Pending(s, c)
    ensures var s, w := st[i], st[i].owner[c];
            && c in Of(s, s.epoll, w)
            && (Enabled(s, Look(w)) && s.pc[w].todo[0] == c && c !in s.offloaded ==>
                  Apply(s, Look(w)).pc[w] == Serving(c, s.pc[w].todo[1..]))
            && (c in s.offloaded && !s.phase.PoolGone? && !s.phase.Done? ==> Tasked(s, c) || MarkedBy(s, c))
  {
    hide Tasked, MarkedBy;
    TendedRuns(st, acts, i);
  }

  /** What a task does next, and how much it has left to do. */
  function NextStep(t: Thread, g: Stage): Action {
    match g
    case Working => Snapshot(t)
    case Snapped => TakeLock(t)
    case Locked => Clear(t)
    case Cleared => Rearm(t)
  }

  function StagesLeft(g: Stage): nat {
    match g
    case Working => 4
    case Snapped => 3
    case Locked => 2
    case Cleared => 1
  }

  /** A task can always take its next step, unless another holds the lock of the same worker,
      and then that one can take its own; the third takes the flag down, and after four the task
      is gone. */
  lemma {:induction false} TaskGoesOn(s: State, t: Thread)
    requires t in s.run && s.run[t].conn in s.owner
    ensures || Enabled(s, NextStep(t, s.run[t].stage))
            || exists u :: u in s.run && StagesLeft(s.run[u].stage) < StagesLeft(s.run[t].stage)
                           && Enabled(s, NextStep(u, s.run[u].stage))
    ensures var r := s.run[t];
            Enabled(s, NextStep(t, r.stage)) ==>
              var v := Apply(s, NextStep(t, r.stage));
              && (r.stage.Cleared? ==> t !in v.run && r.conn in v.epoll)
              && (!r.stage.Cleared? ==>
                    t in v.run && v.run[t].conn == r.conn && StagesLeft(v.run[t].stage) == StagesLeft(r.stage) - 1)
              && (r.stage.Locked? ==> r.conn !in v.offloaded)
  {
    var r := s.run[t];
    if r.stage.Snapped? && !LockFree(s, s.owner[r.conn]) {
      var u :| u in s.run && s.run[u].conn in s.owner && s.owner[s.run[u].conn] == s.owner[r.conn]
               && !(s.run[u].stage.Working? || s.run[u].stage.Snapped?);
      assert Enabled(s, NextStep(u, s.run[u].stage));
    }
  }

  // ---- every event is looked at ----------------------------------------------------------

  /** The connections of the fetched events that a worker has not come to yet. */
  function Todo(s: State, w: Worker): seq<Conn> {
    if w !in s.pc then []
    else
      match s.pc[w]
      case Waiting => []
      case Batch(todo) => todo
      case Serving(_, todo) => todo
      case Marked(_, todo) => todo
      case Submitted(_, todo) => todo
      case Dropping(_, todo) => todo
      case Draining(_, _) => []
      case Exited => []
  }

  /** The connections a worker comes to in the steps from i to j. */
  ghost function Looked(st: seq<State>, acts: seq<Action>, w: Worker, i: nat, j: nat): seq<Conn>
    requires Behaviour(st, acts) && j <= |acts|
    decreases j
  {
    if j <= i then []
    else
      Looked(st, acts, w, i, j - 1)
      + if acts[j - 1] == Look(w) then [st[j - 1].pc[w].todo[0]] else []
  }

  lemma {:induction false} TodoOwn(s: State, a: Action)
    requires Enabled(s, a) && !IsAccept(a) && !IsPool(a) && !IsShutdown(a) && !a.Wait?
    ensures Todo(Apply(s, a), a.w) == if a.Look? then Todo(s, a.w)[1..] else Todo(s, a.w)
    ensures a.Look? ==> |Todo(s, a.w)| > 0 && s.pc[a.w].todo == Todo(s, a.w)
    ensures forall w :: w != a.w ==> Todo(Apply(s, a), w) == Todo(s, w)
  {
    hide LockFree, FirstOf, Of, Opt, Reportable, Distinct;
  }

  lemma {:induction false} TodoOther(s: State, a: Action, w: Worker)
    requires Enabled(s, a) && (IsAccept(a) || IsPool(a) || IsShutdown(a))
    ensures Todo(Apply(s, a), w) == Todo(s, w)
  {
    hide LockFree, FirstOf, Of, Opt;
  }

  lemma {:induction false} TodoWait(s: State, a: Action, w: Worker)
    requires Enabled(s, a) && a.Wait?
    ensures Todo(Apply(s, a), w) == if w == a.w then a.todo else Todo(s, w)
  {
    hide Reportable;
  }

  lemma {:induction false} TodoStep(s: State, a: Action, w: Worker)
    requires Enabled(s, a) && !(a.Wait? && a.w == w)
    ensures a == Look(w) ==> w in s.pc && s.pc[w].Batch? && |s.pc[w].todo| > 0
    ensures (if a == Look(w) then [s.pc[w].todo[0]] else []) + Todo(Apply(s, a), w) == Todo(s, w)
  {
    if a.Wait? {
      TodoWait(s, a, w);
    } else if IsAccept(a) || IsPool(a) || IsShutdown(a) {
      TodoOther(s, a, w);
    } else {
      TodoOwn(s, a);
    }
    hide Apply;
  }

  /** Whatever is served, offloaded, refused or dropped on the way, and whatever others do: until
      its next epoll_wait a worker comes to the connections it fetched one by one, in order, each
      once, and what it has not come to is still to come. */
  lemma {:induction false} EventsHandled(st: seq<State>, acts: seq<Action>, w: Worker, i: nat, j: nat)
    requires Behaviour(st, acts) && i <= j <= |acts|
    requires forall n :: i <= n < j ==> !(acts[n].Wait? && acts[n].w == w)
    ensures Looked(st, acts, w, i, j) + Todo(st[j], w) == Todo(st[i], w)
    decreases j
  {
    hide Enabled, Apply, Todo;
    if i < j {
      EventsHandled(st, acts, w, i, j - 1);
      TodoStep(st[j - 1], acts[j - 1], w);
      var seen, one := Looked(st, acts, w, i, j - 1), if acts[j - 1] == Look(w) then [st[j - 1].pc[w].todo[0]] else [];
      assert seen + one + Todo(st[j], w) == seen + (one + Todo(st[j], w));
    }
  }

  /** So a worker that waits again, or ends, has come to all of them. */
  lemma {:induction false} BatchCompleted(st: seq<State>, acts: seq<Action>, w: Worker, i: nat, j: nat)
    requires Behaviour(st, acts) && i < j <= |acts| && acts[i].Wait? && acts[i].w == w
    requires forall n :: i < n < j ==> !(acts[n].Wait? && acts[n].w == w)
    requires w in st[j].pc && (st[j].pc[w].Waiting? || st[j].pc[w].Draining? || st[j].pc[w].Exited?)
    ensures Looked(st, acts, w, i + 1, j) == acts[i].todo
  {
    hide Enabled, Apply;
    TodoWait(st[i], acts[i], w);
    EventsHandled(st, acts, w, i + 1, j);
    assert Looked(st, acts, w, i + 1, j) + [] == Looked(st, acts, w, i + 1, j);
  }
}
