/** The connection and join tables of server.go, as the steps taken under its mutex. */
module Server {
  import opened Wrappers

  type Key = string
  type Listener = nat

  /** A connection: which it is, and the key its remote address gives. */
  datatype Conn = Conn(id: nat, key: Key)

  datatype Target = Target(world: Option<string>, spawnWorld: string)

  datatype Join = Join(player: string, target: Target)

  datatype ResolveError = MissingWorld | Failed(message: string)

  // ----- the locked sections

  datatype Tables = Tables(closed: bool, conns: set<Conn>, joins: map<Key, Join>, listener: Option<Listener>)

  const EMPTY := Tables(false, {}, map[], None)

  /** A server that is closed tracks nothing more. */
  function Tracked(t: Tables, c: Conn): Tables {
    if t.closed then t else t.(conns := t.conns + {c})
  }

  function Listening(t: Tables, l: Listener): Tables {
    if t.closed then t else t.(listener := Some(l))
  }

  function Recorded(t: Tables, key: Key, join: Join): Tables {
    t.(joins := t.joins[key := join])
  }

  function JoinAt(t: Tables, key: Key): Option<Join> {
    if key in t.joins then Some(t.joins[key]) else None
  }

  function WithoutJoin(t: Tables, key: Key): Tables {
    t.(joins := t.joins - {key})
  }

  function Untracked(t: Tables, c: Conn): Tables {
    t.(conns := t.conns - {c})
  }

  function ShutDown(t: Tables): Tables {
    t.(closed := true)
  }

  // ----- the server

  /** The calls made on sockets, listeners and the releaser. */
  class Outside {
    var closedConns: set<Conn>
    var closedListeners: set<Listener>
    var released: seq<Join>

    constructor ()
      ensures closedConns == {} && closedListeners == {} && released == []
    {
      closedConns, closedListeners, released := {}, {}, [];
    }

    method Close(c: Conn)
      modifies this`closedConns
      ensures closedConns == old(closedConns) + {c}
    {
      closedConns := closedConns + {c};
    }

    method CloseListener(l: Listener)
      modifies this`closedListeners
      ensures closedListeners == old(closedListeners) + {l}
    {
      closedListeners := closedListeners + {l};
    }

    method ReleaseJoin(join: Join)
      modifies this`released
      ensures released == old(released) + [join]
    {
      released := released + [join];
    }
  }

  class Server {
    /** Whether there is a join resolver, and whether it also releases. */
    const resolves: bool
    const releases: bool
    const outside: Outside
    var closed: bool
    var conns: set<Conn>
    var joins: map<Key, Join>
    var listener: Option<Listener>

    ghost function View(): Tables
      reads this
    {
      Tables(closed, conns, joins, listener)
    }

    constructor (resolves: bool, releases: bool)
      ensures this.resolves == resolves && this.releases == releases
      ensures View() == EMPTY && fresh(outside)
      ensures outside.closedConns == {} && outside.closedListeners == {} && outside.released == []
    {
      this.resolves, this.releases := resolves, releases;
      closed, conns, joins, listener := false, {}, map[], None;
      outside := new Outside();
    }

    /** Serve's first section; false when the server is closed, and then the new listener is closed. */
    method Listen(l: Listener) returns (ok: bool)
      modifies this, outside
      ensures ok == !old(closed) && View() == Listening(old(View()), l)
      ensures outside.closedListeners == old(outside.closedListeners) + if ok then {} else {l}
      ensures outside.closedConns == old(outside.closedConns) && outside.released == old(outside.released)
    {
      if closed {
        outside.CloseListener(l);
        return false;
      }
      listener := Some(l);
      return true;
    }

    method TrackConn(c: Conn)
      modifies this, outside
      ensures View() == Tracked(old(View()), c)
      ensures outside.closedConns == old(outside.closedConns) + if old(closed) then {c} else {}
      ensures outside.closedListeners == old(outside.closedListeners) && outside.released == old(outside.released)
    {
      if closed {
        outside.Close(c);
        return;
      }
      conns := conns + {c};
    }

    /** Called when the handler of c returns, and with no other step between, c is closed and forgotten,
        and the join under its key, if there is one, is released once. */
    method UntrackConn(c: Conn)
      modifies this, outside
      ensures View() == Untracked(if resolves && releases then WithoutJoin(old(View()), c.key) else old(View()), c)
      ensures outside.closedConns == old(outside.closedConns) + {c}
      ensures outside.closedListeners == old(outside.closedListeners)
      ensures outside.released == old(outside.released)
        + if resolves && releases && c.key in old(joins) then [old(joins)[c.key]] else []
    {
      outside.Close(c);
      ReleaseJoin(c.key);
      conns := conns - {c};
    }

    method ReleaseJoin(key: Key)
      modifies this`joins, outside`released
      ensures View() == if resolves && releases then WithoutJoin(old(View()), key) else old(View())
      ensures outside.released == old(outside.released)
        + if resolves && releases && key in old(joins) then [old(joins)[key]] else []
    {
      if !(resolves && releases) {
        return;
      }
      var join := if key in joins then Some(joins[key]) else None;
      if join.Some? {
        joins := joins - {key};
      } else {
        assert joins - {key} == joins;
        return;
      }
      outside.ReleaseJoin(join.value);
    }

    /** The join resolver's answer is an input, and so are those of the spawn resolver and the worlds.
        A target without a world is an error; else it is kept, and only where it names no world to
        spawn in it names its own. */
    method ResolveJoin(player: string, key: Key, answer: Result<Target, ResolveError>)
      returns (r: Result<Target, ResolveError>)
      modifies this`joins
      ensures answer.Err? ==> r == answer
      ensures answer.Ok? && answer.value.world == None ==> r == Err(MissingWorld)
      ensures answer.Ok? && answer.value.world.Some? ==> r.Ok? && r.value.world == answer.value.world
      ensures r.Ok? && answer.value.spawnWorld != "" ==> r.value == answer.value
      ensures r.Ok? && answer.value.spawnWorld == "" ==>
        r.value.spawnWorld == r.value.world.value && r.value.(spawnWorld := "") == answer.value
      ensures View() == if r.Ok? && resolves && releases then Recorded(old(View()), key, Join(player, r.value))
                        else old(View())
    {
      if answer.Err? {
        return answer;
      }
      var target := answer.value;
      if target.world == None {
        return Err(MissingWorld);
      }
      if target.spawnWorld == "" {
        target := target.(spawnWorld := target.world.value);
      }
      if resolves && releases {
        joins := joins[key := Join(player, target)];
      }
      return Ok(target);
    }

    /** Without the wait for the handlers. */
    method Shutdown()
      modifies this, outside
      ensures View() == ShutDown(old(View())) && outside.released == old(outside.released)
      ensures outside.closedConns == old(outside.closedConns) + if old(closed) then {} else old(conns)
      ensures outside.closedListeners == old(outside.closedListeners)
        + if !old(closed) && old(listener).Some? then {old(listener).value} else {}
    {
      if closed {
        return;
      }
      closed := true;
      var ln, todo := listener, conns;
      if ln.Some? {
        outside.CloseListener(ln.value);
      }
      while todo != {}
        invariant todo <= conns
        invariant outside.closedConns == old(outside.closedConns) + (conns - todo)
        invariant View() == ShutDown(old(View())) && outside.released == old(outside.released)
        invariant outside.closedListeners == old(outside.closedListeners) + if ln.Some? then {ln.value} else {}
        decreases todo
      {
        var c :| c in todo;
        outside.Close(c);
        todo := todo - {c};
      }
    }
  }

  // ----- interleavings

  /** Where the handler of a connection is: untrackConn has four steps, between which others run. */
  datatype Phase = Accepted | Serving | Closing | Taken(join: Option<Join>) | Released | Done

  datatype Handler = Handler(phase: Phase, recorded: seq<Join>, released: seq<Join>)

  datatype World = World(tables: Tables, handlers: map<Conn, Handler>, closed: set<Conn>, pending: set<Conn>,
                         closedListeners: set<Listener>, pendingListener: Option<Listener>)

  datatype Action =
    | Listen(l: Listener)
    | Accept(c: Conn)
    | Track(c: Conn)
    | Resolve(c: Conn, join: Join)
    | Close(c: Conn)
    | Take(c: Conn)
    | Release(c: Conn)
    | Forget(c: Conn)
    | Shut
    | ShutOne(c: Conn)
    | ShutListener

  const START := World(EMPTY, map[], {}, {}, {}, None)

  /** Phases only go forward; an action not possible in a world is None. */
  function Step(w: World, a: Action): Option<World> {
    match a
    case Listen(l) =>
      Some(w.(tables := Listening(w.tables, l),
              closedListeners := w.closedListeners + if w.tables.closed then {l} else {}))
    case Accept(c) =>
      if c in w.handlers then None else Some(w.(handlers := w.handlers[c := Handler(Accepted, [], [])]))
    case Track(c) =>
      if !In(w, c, Accepted) then None
      else Some(Goto(w, c, Serving).(tables := Tracked(w.tables, c),
                                     closed := w.closed + if w.tables.closed then {c} else {}))
    case Resolve(c, join) =>
      if !In(w, c, Serving) then None
      else
        var h := w.handlers[c];
        Some(w.(tables := Recorded(w.tables, c.key, join),
                handlers := w.handlers[c := h.(recorded := h.recorded + [join])]))
    case Close(c) =>
      if !In(w, c, Serving) then None else Some(Goto(w, c, Closing).(closed := w.closed + {c}))
    case Take(c) =>
      if !In(w, c, Closing) then None
      else Some(Goto(w, c, Taken(JoinAt(w.tables, c.key))).(tables := WithoutJoin(w.tables, c.key)))
    case Release(c) =>
      if c in w.handlers && w.handlers[c].phase.Taken? then
        var h := w.handlers[c];
        var released := if h.phase.join.Some? then h.released + [h.phase.join.value] else h.released;
        Some(w.(handlers := w.handlers[c := Handler(Released, h.recorded, released)]))
      else None
    case Forget(c) =>
      if !In(w, c, Released) then None else Some(Goto(w, c, Done).(tables := Untracked(w.tables, c)))
    case Shut =>
      if w.tables.closed then Some(w)
      else Some(w.(tables := ShutDown(w.tables), pending := w.tables.conns, pendingListener := w.tables.listener))
    case ShutOne(c) =>
      if c !in w.pending then None else Some(w.(pending := w.pending - {c}, closed := w.closed + {c}))
    case ShutListener =>
      if w.pendingListener == None then None
      else Some(w.(pendingListener := None, closedListeners := w.closedListeners + {w.pendingListener.value}))
  }

  predicate In(w: World, c: Conn, phase: Phase) {
    c in w.handlers && w.handlers[c].phase == phase
  }

  function Goto(w: World, c: Conn, phase: Phase): World
    requires c in w.handlers
  {
    w.(handlers := w.handlers[c := w.handlers[c].(phase := phase)])
  }

  /** A connection from an address is only accepted after the one before from that address has
      released its join. */
  ghost predicate AddressFree(w: World, a: Action) {
    a.Accept? ==> forall c | c in w.handlers && c.key == a.c.key :: BeyondRelease(w.handlers[c])
  }

  predicate BeyondRelease(h: Handler) {
    h.phase.Taken? || h.phase.Released? || h.phase.Done?
  }

  /** The world after a run, if each action was possible. */
  function Run(actions: seq<Action>): Option<World> {
    if actions == [] then Some(START)
    else match Run(actions[..|actions| - 1])
      case None => None
      case Some(w) => Step(w, actions[|actions| - 1])
  }

  ghost predicate AddressesFree(actions: seq<Action>) {
    forall i | 0 <= i < |actions| :: Run(actions[..i]).Some? ==> AddressFree(Run(actions[..i]).value, actions[i])
  }

  // ----- what every step keeps

  /** Of all the joins resolved for a connection, the last one. */
  function LastJoin(h: Handler): Option<Join> {
    if h.recorded == [] then None else Some(h.recorded[|h.recorded| - 1])
  }

  function OptionSeq(o: Option<Join>): seq<Join> {
    if o.Some? then [o.value] else []
  }

  /** The joins a handler has released: none until its release, then its own. */
  ghost predicate HandlerInv(h: Handler) {
    && (!h.phase.Released? && !h.phase.Done? ==> h.released == [])
    && (h.phase.Released? || h.phase.Done? ==> h.released == OptionSeq(LastJoin(h)))
    && (h.phase.Taken? ==> h.phase.join == LastJoin(h))
    && (h.phase.Accepted? ==> h.recorded == [])
  }

  /** The table holds the last join of each handler that has not taken it yet, and nothing else. */
  ghost predicate JoinsInv(w: World) {
    && (forall c | c in w.handlers :: HandlerInv(w.handlers[c]) && HoldsJoin(w, c))
    && (forall k | k in w.tables.joins :: Owned(w, k))
    && (forall c, d | c in w.handlers && d in w.handlers && c != d && c.key == d.key :: !Both(w, c, d))
  }

  predicate HoldsJoin(w: World, c: Conn)
    requires c in w.handlers
  {
    BeyondRelease(w.handlers[c]) || JoinAt(w.tables, c.key) == LastJoin(w.handlers[c])
  }

  ghost predicate Owned(w: World, k: Key) {
    exists c | c in w.handlers :: c.key == k && !BeyondRelease(w.handlers[c])
  }

  predicate Both(w: World, c: Conn, d: Conn)
    requires c in w.handlers && d in w.handlers
  {
    !BeyondRelease(w.handlers[c]) && !BeyondRelease(w.handlers[d])
  }

  /** Every connection that was tracked is in the table, waits to be closed by Shutdown, or is closed. */
  ghost predicate ConnsInv(w: World) {
    && (forall c | c in w.tables.conns :: c in w.handlers && !w.handlers[c].phase.Accepted? && !w.handlers[c].phase.Done?)
    && (forall c | c in w.handlers && !w.handlers[c].phase.Accepted? :: Covered(w, c))
    && (!w.tables.closed ==> w.pending == {} && w.pendingListener == None)
    && (w.tables.closed && w.tables.listener.Some? ==>
          w.pendingListener == w.tables.listener || w.tables.listener.value in w.closedListeners)
  }

  ghost predicate Covered(w: World, c: Conn)
    requires c in w.handlers
  {
    c in w.closed
    || (w.handlers[c].phase.Serving? && (c in w.pending || (!w.tables.closed && c in w.tables.conns)))
  }

  /** The handler an action moves. */
  function Mover(a: Action): Option<Conn> {
    match a
    case Accept(c) => Some(c)
    case Track(c) => Some(c)
    case Resolve(c, _) => Some(c)
    case Close(c) => Some(c)
    case Take(c) => Some(c)
    case Release(c) => Some(c)
    case Forget(c) => Some(c)
    case _ => None
  }

  /** What a step of one handler may do to the joins. */
  ghost predicate Moved(w: World, next: World, c: Conn) {
    && next.handlers.Keys == w.handlers.Keys + {c}
    && (forall d | d in w.handlers && d != c :: next.handlers[d] == w.handlers[d])
    && (forall k: Key | k != c.key :: JoinAt(next.tables, k) == JoinAt(w.tables, k))
    && HandlerInv(next.handlers[c]) && HoldsJoin(next, c)
    && (if !BeyondRelease(next.handlers[c]) then
          (c in w.handlers && !BeyondRelease(w.handlers[c]))
          || forall d | d in w.handlers && d.key == c.key :: BeyondRelease(w.handlers[d])
        else
          c in w.handlers
          && JoinAt(next.tables, c.key) == if BeyondRelease(w.handlers[c]) then JoinAt(w.tables, c.key) else None)
  }

  lemma StepMoves(w: World, a: Action, c: Conn)
    requires JoinsInv(w) && AddressFree(w, a) && Step(w, a).Some? && Mover(a) == Some(c)
    ensures Moved(w, Step(w, a).value, c)
  {
    match a
    case Resolve(_, join) => ResolveMoves(w, c, join);
    case Take(_) => TakeMoves(w, c);
    case Release(_) => ReleaseMoves(w, c);
    case Accept(_) => AcceptMoves(w, c);
    case _ => PlainStepMoves(w, a, c);
  }

  lemma ResolveMoves(w: World, c: Conn, join: Join)
    requires JoinsInv(w) && Step(w, Resolve(c, join)).Some?
    ensures Moved(w, Step(w, Resolve(c, join)).value, c)
  {
    assert HandlerInv(w.handlers[c]) && HoldsJoin(w, c);
    hide JoinsInv, Moved;
    var h := w.handlers[c];
    ResolvedMoves(w, Step(w, Resolve(c, join)).value, c, h.(recorded := h.recorded + [join]), join);
  }

  lemma ResolvedMoves(w: World, next: World, c: Conn, h: Handler, join: Join)
    requires c in w.handlers && w.handlers[c].phase == Serving && HandlerInv(w.handlers[c])
    requires h == w.handlers[c].(recorded := w.handlers[c].recorded + [join])
    requires next.handlers == w.handlers[c := h] && next.tables == Recorded(w.tables, c.key, join)
    ensures Moved(w, next, c)
  {
    assert LastJoin(h) == Some(join);
  }

  lemma TakeMoves(w: World, c: Conn)
    requires JoinsInv(w) && Step(w, Take(c)).Some?
    ensures Moved(w, Step(w, Take(c)).value, c)
  {
    assert HandlerInv(w.handlers[c]) && HoldsJoin(w, c);
    hide JoinsInv, Moved;
    var next := Step(w, Take(c)).value;
    JoinsWithout(w.tables, c.key);
    assert next.tables == WithoutJoin(w.tables, c.key);
    TakenMoves(w, next, c);
  }

  lemma JoinsWithout(t: Tables, key: Key)
    ensures forall k: Key :: JoinAt(WithoutJoin(t, key), k) == if k == key then None else JoinAt(t, k)
  {}

  lemma TakenMoves(w: World, next: World, c: Conn)
    requires c in w.handlers && HandlerInv(w.handlers[c]) && HoldsJoin(w, c) && w.handlers[c].phase == Closing
    requires next.handlers == Goto(w, c, Taken(JoinAt(w.tables, c.key))).handlers
    requires forall k: Key :: JoinAt(next.tables, k) == if k == c.key then None else JoinAt(w.tables, k)
    ensures Moved(w, next, c)
  {
    hide JoinAt;
  }

  lemma ReleaseMoves(w: World, c: Conn)
    requires JoinsInv(w) && Step(w, Release(c)).Some?
    ensures Moved(w, Step(w, Release(c)).value, c)
  {
    assert HandlerInv(w.handlers[c]) && HoldsJoin(w, c);
    hide JoinsInv;
  }

  lemma AcceptMoves(w: World, c: Conn)
    requires JoinsInv(w) && AddressFree(w, Accept(c)) && Step(w, Accept(c)).Some?
    ensures Moved(w, Step(w, Accept(c)).value, c)
  {
    NoOwnerNoJoin(w, c.key);
  }

  /** Steps that leave the joins alone. */
  lemma PlainStepMoves(w: World, a: Action, c: Conn)
    requires JoinsInv(w) && Step(w, a).Some? && (a == Track(c) || a == Close(c) || a == Forget(c))
    ensures Moved(w, Step(w, a).value, c)
  {
    assert HandlerInv(w.handlers[c]) && HoldsJoin(w, c);
    hide JoinsInv, Moved, HandlerInv, HoldsJoin;
    var next := Step(w, a).value;
    PhaseMoves(w, next, c, next.handlers[c].phase);
  }

  lemma PhaseMoves(w: World, next: World, c: Conn, phase: Phase)
    requires c in w.handlers && HandlerInv(w.handlers[c]) && HoldsJoin(w, c)
    requires next.tables.joins == w.tables.joins && next.handlers == Goto(w, c, phase).handlers
    requires SamePart(w.handlers[c].phase, phase)
    ensures Moved(w, next, c)
  {}

  lemma NoOwnerNoJoin(w: World, k: Key)
    requires JoinsInv(w) && forall c | c in w.handlers && c.key == k :: BeyondRelease(w.handlers[c])
    ensures JoinAt(w.tables, k) == None
  {
    assert k in w.tables.joins ==> Owned(w, k);
  }

  lemma MovedHolds(w: World, next: World, c: Conn, d: Conn)
    requires JoinsInv(w) && Moved(w, next, c) && d in next.handlers
    ensures HandlerInv(next.handlers[d]) && HoldsJoin(next, d)
  {
    hide HandlerInv, LastJoin, BeyondRelease;
    if d != c {
      assert HoldsJoin(w, d);
      if d.key == c.key && c in w.handlers {
        assert !Both(w, c, d);
      }
    }
  }

  lemma MovedOwned(w: World, next: World, c: Conn, k: Key)
    requires JoinsInv(w) && Moved(w, next, c) && k in next.tables.joins
    ensures Owned(next, k)
  {
    hide HandlerInv, LastJoin, BeyondRelease;
    if k == c.key && !BeyondRelease(next.handlers[c]) {
      assert Owned(next, k);
    } else {
      assert JoinAt(next.tables, k) == JoinAt(w.tables, k);
      assert Owned(w, k);
      var d :| d in w.handlers && d.key == k && !BeyondRelease(w.handlers[d]);
      assert d in next.handlers && !BeyondRelease(next.handlers[d]);
    }
  }

  lemma MovedApart(w: World, next: World, m: Conn, c: Conn, d: Conn)
    requires JoinsInv(w) && Moved(w, next, m)
    requires c in next.handlers && d in next.handlers && c != d && c.key == d.key
    ensures !Both(next, c, d)
  {
    hide HandlerInv, LastJoin, BeyondRelease, HoldsJoin, Owned;
    if c in w.handlers && d in w.handlers {
      assert !Both(w, c, d);
    }
  }

  lemma SameJoins(w: World, next: World)
    requires JoinsInv(w) && next.handlers == w.handlers && next.tables.joins == w.tables.joins
    ensures JoinsInv(next)
  {
    hide HandlerInv, LastJoin, BeyondRelease;
    assert forall k | k in w.tables.joins :: Owned(w, k) ==> Owned(next, k);
    assert forall c | c in w.handlers :: HoldsJoin(w, c) ==> HoldsJoin(next, c);
    assert forall c, d | c in w.handlers && d in w.handlers :: Both(next, c, d) ==> Both(w, c, d);
  }

  lemma StepKeepsJoins(w: World, a: Action)
    requires JoinsInv(w) && AddressFree(w, a) && Step(w, a).Some?
    ensures JoinsInv(Step(w, a).value)
  {
    var next := Step(w, a).value;
    if Mover(a).None? {
      SameJoins(w, next);
      return;
    }
    var m := Mover(a).value;
    StepMoves(w, a, m);
    hide Step, HandlerInv, LastJoin, BeyondRelease, Moved, Owned, HoldsJoin, Both;
    forall c | c in next.handlers
      ensures HandlerInv(next.handlers[c]) && HoldsJoin(next, c)
    {
      MovedHolds(w, next, m, c);
    }
    forall k | k in next.tables.joins
      ensures Owned(next, k)
    {
      MovedOwned(w, next, m, k);
    }
    forall c, d | c in next.handlers && d in next.handlers && c != d && c.key == d.key
      ensures !Both(next, c, d)
    {
      MovedApart(w, next, m, c, d);
    }
  }

  lemma StepKeepsConns(w: World, a: Action)
    requires ConnsInv(w) && Step(w, a).Some?
    ensures ConnsInv(Step(w, a).value)
    ensures w.tables.closed ==> Step(w, a).value.tables.closed && Step(w, a).value.tables.conns <= w.tables.conns
  {
    if Mover(a).Some? {
      MoverKeepsConns(w, a);
    }
  }

  lemma MoverKeepsConns(w: World, a: Action)
    requires ConnsInv(w) && Step(w, a).Some? && Mover(a).Some?
    ensures ConnsInv(Step(w, a).value)
  {
    var next, c := Step(w, a).value, Mover(a).value;
    forall d | d in next.handlers && !next.handlers[d].phase.Accepted?
      ensures Covered(next, d)
    {
      assert d != c ==> Covered(w, d) && next.handlers[d] == w.handlers[d];
    }
  }

  // ----- whole runs

  lemma {:induction false} RunKeepsConns(actions: seq<Action>)
    requires Run(actions).Some?
    ensures ConnsInv(Run(actions).value)
  {
    if actions != [] {
      var n := |actions| - 1;
      RunKeepsConns(actions[..n]);
      StepKeepsConns(Run(actions[..n]).value, actions[n]);
    }
  }

  lemma {:induction false} RunKeepsJoins(actions: seq<Action>)
    requires Run(actions).Some? && AddressesFree(actions)
    ensures JoinsInv(Run(actions).value)
  {
    hide Step, JoinsInv, AddressFree;
    if actions == [] {
      StartKeepsJoins();
    } else {
      var n := |actions| - 1;
      assert forall i | 0 <= i < n :: actions[..n][..i] == actions[..i];
      assert AddressFree(Run(actions[..n]).value, actions[n]);
      RunKeepsJoins(actions[..n]);
      StepKeepsJoins(Run(actions[..n]).value, actions[n]);
    }
  }

  lemma StartKeepsJoins()
    ensures JoinsInv(START)
  {}

  /** The joins a run resolved for a connection. */
  function ResolvedFor(actions: seq<Action>, c: Conn): seq<Join> {
    if actions == [] then []
    else
      var n := |actions| - 1;
      var before := ResolvedFor(actions[..n], c);
      if actions[n].Resolve? && actions[n].c == c then before + [actions[n].join] else before
  }

  lemma {:induction false} RecordedIsResolved(actions: seq<Action>, c: Conn)
    requires Run(actions).Some?
    ensures ResolvedFor(actions, c) == RecordedOf(Run(actions).value, c)
  {
    hide Step, RecordedOf;
    NothingRecorded(c);
    if actions != [] {
      var n := |actions| - 1;
      RecordedIsResolved(actions[..n], c);
      StepRecords(Run(actions[..n]).value, actions[n], c);
    }
  }

  function RecordedOf(w: World, c: Conn): seq<Join> {
    if c in w.handlers then w.handlers[c].recorded else []
  }

  lemma NothingRecorded(c: Conn)
    ensures RecordedOf(START, c) == []
  {}

  lemma StepRecords(w: World, a: Action, c: Conn)
    requires Step(w, a).Some?
    ensures RecordedOf(Step(w, a).value, c)
         == RecordedOf(w, c) + if a.Resolve? && a.c == c then [a.join] else []
  {
    assert RecordedOf(w, c) + [] == RecordedOf(w, c);
  }

  /** In every interleaving, once Shutdown has closed what it found, every connection that has been
      tracked is closed, no other was let in, and the listener is closed.  A connection accepted but
      not yet tracked will be closed by trackConn. */
  lemma ShutdownClosesAll(actions: seq<Action>)
    requires Run(actions).Some?
    requires var w := Run(actions).value; w.tables.closed && w.pending == {} && w.pendingListener == None
    ensures var w := Run(actions).value;
      && (forall c | c in w.handlers && !w.handlers[c].phase.Accepted? :: c in w.closed)
      && (w.tables.listener.Some? ==> w.tables.listener.value in w.closedListeners)
      && (forall c | In(w, c, Accepted) ::
            Step(w, Track(c)).Some? && c in Step(w, Track(c)).value.closed && c !in Step(w, Track(c)).value.tables.conns)
  {
    RunKeepsConns(actions);
  }

  /** With no address used again before its join is released, each handler that is past its release
      has released exactly the last join resolved for its own connection, once, and one still to
      release will find it. */
  lemma OwnJoinReleasedOnce(actions: seq<Action>, c: Conn)
    requires Run(actions).Some? && AddressesFree(actions) && c in Run(actions).value.handlers
    ensures var w, resolved := Run(actions).value, ResolvedFor(actions, c);
      var h, last := w.handlers[c], if resolved == [] then None else Some(resolved[|resolved| - 1]);
      && (h.phase.Released? || h.phase.Done? ==> h.released == OptionSeq(last))
      && (h.phase.Taken? ==> h.released == [] && h.phase.join == last)
      && (!BeyondRelease(h) ==> h.released == [] && JoinAt(w.tables, c.key) == last)
  {
    RunKeepsJoins(actions);
    RecordedIsResolved(actions, c);
    var w := Run(actions).value;
    assert HandlerInv(w.handlers[c]) && HoldsJoin(w, c);
  }

  lemma StepKeepsOwned(w: World, a: Action)
    requires Step(w, a).Some? && forall k | k in w.tables.joins :: Owned(w, k)
    ensures forall k | k in Step(w, a).value.tables.joins :: Owned(Step(w, a).value, k)
  {
    var next := Step(w, a).value;
    forall k | k in next.tables.joins
      ensures Owned(next, k)
    {
      if a.Resolve? && a.c.key == k {
        assert a.c in next.handlers && !BeyondRelease(next.handlers[a.c]);
      } else {
        assert Owned(w, k);
        var d :| d in w.handlers && d.key == k && !BeyondRelease(w.handlers[d]);
        assert d in next.handlers && !BeyondRelease(next.handlers[d]);
      }
    }
  }

  lemma {:induction false} RunKeepsOwned(actions: seq<Action>)
    requires Run(actions).Some?
    ensures forall k | k in Run(actions).value.tables.joins :: Owned(Run(actions).value, k)
  {
    hide Owned, Step;
    if actions != [] {
      RunKeepsOwned(actions[..|actions| - 1]);
      StepKeepsOwned(Run(actions[..|actions| - 1]).value, actions[|actions| - 1]);
    }
  }

  /** In every interleaving, when all handlers have returned both tables are empty and every
      connection is closed. */
  lemma NothingIsLeft(actions: seq<Action>)
    requires Run(actions).Some?
    requires var w := Run(actions).value; forall c | c in w.handlers :: w.handlers[c].phase == Done
    ensures var w := Run(actions).value;
      w.tables.conns == {} && w.tables.joins == map[] && forall c | c in w.handlers :: c in w.closed
  {
    RunKeepsConns(actions);
    RunKeepsOwned(actions);
    var w := Run(actions).value;
    assert w.tables.joins.Keys == {};
  }

  // ----- exactly which joins are released

  /** The steps that change the table's entry under a key. */
  predicate Touches(a: Action, k: Key) {
    (a.Resolve? || a.Take?) && a.c.key == k
  }

  function LastTouch(actions: seq<Action>, k: Key): (r: Option<nat>)
    ensures r.Some? ==> r.value < |actions| && Touches(actions[r.value], k)
    ensures r.Some? ==> forall j | r.value < j < |actions| :: !Touches(actions[j], k)
    ensures r.None? ==> forall j | 0 <= j < |actions| :: !Touches(actions[j], k)
  {
    if actions == [] then None
    else if Touches(actions[|actions| - 1], k) then Some(|actions| - 1)
    else LastTouch(actions[..|actions| - 1], k)
  }

  /** What an action left under the key: the join of a Resolve. */
  function LeftBy(actions: seq<Action>, i: Option<nat>): Option<Join>
    requires i.Some? ==> i.value < |actions|
  {
    if i.Some? && actions[i.value].Resolve? then Some(actions[i.value].join) else None
  }

  /** In every run the entry under a key is what the last Resolve or Take under it left. */
  lemma {:induction false} TableIsLastTouch(actions: seq<Action>, k: Key)
    requires Run(actions).Some?
    ensures JoinAt(Run(actions).value.tables, k) == LeftBy(actions, LastTouch(actions, k))
  {
    if actions != [] {
      var n := |actions| - 1;
      TableIsLastTouch(actions[..n], k);
      StepTouches(Run(actions[..n]).value, actions[n], k);
    }
  }

  lemma StepTouches(w: World, a: Action, k: Key)
    requires Step(w, a).Some?
    ensures JoinAt(Step(w, a).value.tables, k)
      == if !Touches(a, k) then JoinAt(w.tables, k) else if a.Resolve? then Some(a.join) else None
  {}

  lemma {:induction false} RunPrefix(actions: seq<Action>, n: nat)
    requires Run(actions).Some? && n <= |actions|
    ensures Run(actions[..n]).Some?
    decreases |actions|
  {
    if n < |actions| {
      assert actions[..|actions| - 1][..n] == actions[..n];
      RunPrefix(actions[..|actions| - 1], n);
    } else {
      assert actions[..n] == actions;
    }
  }

  function LastResolve(actions: seq<Action>, c: Conn): (r: Option<nat>)
    ensures r.Some? ==> r.value < |actions| && actions[r.value].Resolve? && actions[r.value].c == c
    ensures r.Some? ==> forall j | r.value < j < |actions| :: !(actions[j].Resolve? && actions[j].c == c)
    ensures r.None? ==> forall j | 0 <= j < |actions| :: !(actions[j].Resolve? && actions[j].c == c)
  {
    if actions == [] then None
    else if actions[|actions| - 1].Resolve? && actions[|actions| - 1].c == c then Some(|actions| - 1)
    else LastResolve(actions[..|actions| - 1], c)
  }

  function TakeOf(actions: seq<Action>, c: Conn): (r: Option<nat>)
    ensures r.Some? ==> r.value < |actions| && actions[r.value] == Take(c)
    ensures r.None? ==> Take(c) !in actions
  {
    if actions == [] then None
    else if actions[|actions| - 1] == Take(c) then Some(|actions| - 1)
    else
      assert actions == actions[..|actions| - 1] + [actions[|actions| - 1]];
      TakeOf(actions[..|actions| - 1], c)
  }

  /** Which Resolve the Take at n takes the join of: joins are told apart by the step that put them
      there, and so by their connection, even if their values are equal. */
  function TakenFrom(actions: seq<Action>, n: nat): (r: Option<nat>)
    requires n < |actions| && actions[n].Take?
    ensures r.Some? ==> r.value < n && actions[r.value].Resolve?
  {
    var i := LastTouch(actions[..n], actions[n].c.key);
    if i.Some? && actions[i.value].Resolve? then i else None
  }

  /** A handler that has taken its join has released, or is about to release, exactly that. */
  lemma {:induction false} ReleasesWhatItTook(actions: seq<Action>, c: Conn)
    requires Run(actions).Some? && c in Run(actions).value.handlers
    ensures var h, n := Run(actions).value.handlers[c], TakeOf(actions, c);
      && (BeyondRelease(h) <==> n.Some?)
      && (!h.phase.Released? && !h.phase.Done? ==> h.released == [])
      && (n.Some? && h.phase.Taken? ==> h.phase.join == LeftBy(actions, TakenFrom(actions, n.value)))
      && (n.Some? && !h.phase.Taken? ==> h.released == OptionSeq(LeftBy(actions, TakenFrom(actions, n.value))))
  {
    hide Step;
    var last := |actions| - 1;
    var a, w := actions[last], Run(actions[..last]).value;
    var n := TakeOf(actions, c);
    TableIsLastTouch(actions[..last], c.key);
    if n.Some? && a != Take(c) {
      assert actions[..last][..n.value] == actions[..n.value];
    }
    if c in w.handlers {
      ReleasesWhatItTook(actions[..last], c);
      StepHandler(w, a, c);
    } else {
      NotYet(actions[..last], c);
      StepHandler(w, a, c);
    }
  }

  /** What a step makes of one handler, as far as its release goes. */
  lemma StepHandler(w: World, a: Action, c: Conn)
    requires Step(w, a).Some?
    ensures var after := Step(w, a).value.handlers;
      && (c in w.handlers ==> c in after)
      && (c !in w.handlers && c in after ==> after[c] == Handler(Accepted, [], []) && a == Accept(c))
      && (c in w.handlers && a == Take(c) ==>
            w.handlers[c].phase == Closing && after[c] == w.handlers[c].(phase := Taken(JoinAt(w.tables, c.key))))
      && (c in w.handlers && a == Release(c) ==>
            w.handlers[c].phase.Taken?
            && after[c] == Handler(Released, w.handlers[c].recorded,
                                   w.handlers[c].released + OptionSeq(w.handlers[c].phase.join)))
      && (c in w.handlers && a != Take(c) && a != Release(c) ==>
            after[c].released == w.handlers[c].released && SamePart(w.handlers[c].phase, after[c].phase))
  {}

  predicate SamePart(p: Phase, q: Phase) {
    || p == q
    || (p.Accepted? && q.Serving?) || (p.Serving? && q.Closing?) || (p.Released? && q.Done?)
  }

  lemma {:induction false} NotYet(actions: seq<Action>, c: Conn)
    requires Run(actions).Some? && c !in Run(actions).value.handlers
    ensures TakeOf(actions, c) == None
  {
    if actions != [] {
      NotYet(actions[..|actions| - 1], c);
    }
  }

  lemma TakenIsBeyond(actions: seq<Action>, j: nat, c: Conn)
    requires Run(actions).Some? && j < |actions| && actions[j] == Take(c)
    ensures c in Run(actions).value.handlers && BeyondRelease(Run(actions).value.handlers[c])
  {
    assert Take(c) in actions;
    if c !in Run(actions).value.handlers {
      NotYet(actions, c);
    } else {
      ReleasesWhatItTook(actions, c);
    }
  }

  /** A handler takes once. */
  lemma TakesOnce(actions: seq<Action>, j: nat, n: nat)
    requires Run(actions).Some? && j < n < |actions| && actions[j].Take?
    ensures actions[n] != actions[j]
  {
    RunPrefix(actions, n);
    RunPrefix(actions, n + 1);
    assert actions[..n + 1][..n] == actions[..n];
    assert actions[..n][j] == actions[j];
    TakenIsBeyond(actions[..n], j, actions[j].c);
  }

  /** The Take of c's handler takes the last join resolved for c, or nothing if there is none, exactly
      if - where one was resolved - no other connection has resolved or taken under its key since, and
      - where none was - no other connection's join is waiting under its key. */
  lemma TakesOwnExactly(actions: seq<Action>, n: nat)
    requires Run(actions).Some? && n < |actions| && actions[n].Take?
    ensures var c := actions[n].c;
      var own := LastResolve(actions[..n], c);
      TakenFrom(actions, n) == own
      <==> if own.Some? then forall j | own.value < j < n && Touches(actions[j], c.key) :: actions[j].c == c
           else LeftBy(actions[..n], LastTouch(actions[..n], c.key)) == None
  {
    var c, before := actions[n].c, actions[..n];
    var own, last := LastResolve(before, c), LastTouch(before, c.key);
    assert forall j | 0 <= j < n :: before[j] == actions[j];
    if own.Some? {
      assert Touches(before[own.value], c.key);
      if last.value != own.value && actions[last.value].c == c {
        TakesOnce(actions, last.value, n);
      }
      assert last == own ==> forall j | own.value < j < n :: !Touches(before[j], c.key);
    }
  }

  /** No join is taken twice, in any run. */
  lemma TakenByOne(actions: seq<Action>, n: nat, m: nat)
    requires n < m < |actions| && actions[n].Take? && actions[m].Take? && TakenFrom(actions, n).Some?
    ensures TakenFrom(actions, m) != TakenFrom(actions, n)
  {
    if TakenFrom(actions, m) == TakenFrom(actions, n) {
      assert Touches(actions[..m][n], actions[m].c.key);
    }
  }

  /** The next Resolve or Take under a key after a step. */
  function NextTouch(actions: seq<Action>, i: nat, k: Key): (r: Option<nat>)
    requires i < |actions|
    ensures r.Some? ==> i < r.value < |actions| && Touches(actions[r.value], k)
    ensures r.Some? ==> forall j | i < j < r.value :: !Touches(actions[j], k)
    ensures r.None? ==> forall j | i < j < |actions| :: !Touches(actions[j], k)
    decreases |actions| - i
  {
    if i + 1 == |actions| then None
    else if Touches(actions[i + 1], k) then Some(i + 1)
    else NextTouch(actions, i + 1, k)
  }

  /** A join is ever taken to be released exactly if the next step under its key takes, and not one
      that puts another join in its place. */
  lemma ReleasedExactly(actions: seq<Action>, i: nat)
    requires i < |actions| && actions[i].Resolve?
    ensures var next := NextTouch(actions, i, actions[i].c.key);
      (exists n | 0 <= n < |actions| && actions[n].Take? :: TakenFrom(actions, n) == Some(i))
      <==> next.Some? && actions[next.value].Take?
  {
    var next := NextTouch(actions, i, actions[i].c.key);
    forall n | 0 <= n < |actions| && actions[n].Take?
      ensures TakenFrom(actions, n) == Some(i) <==> next == Some(n)
    {
      TakenIsNext(actions, i, n);
    }
  }

  lemma TakenIsNext(actions: seq<Action>, i: nat, n: nat)
    requires i < |actions| && actions[i].Resolve? && n < |actions| && actions[n].Take?
    ensures TakenFrom(actions, n) == Some(i) <==> NextTouch(actions, i, actions[i].c.key) == Some(n)
  {
    var k := actions[i].c.key;
    var before, next := actions[..n], NextTouch(actions, i, k);
    assert forall j | 0 <= j < n :: before[j] == actions[j];
    assert TakenFrom(actions, n) == Some(i) ==> Touches(before[i], actions[n].c.key);
    if actions[n].c.key == k && i < n {
      assert Touches(before[i], k);
      var last := LastTouch(before, k).value;
      assert last != i ==> !Touches(before[i], k) || last > i;
    }
  }

  /** With no step of another handler between, untrackConn is its four steps. */
  lemma UntrackUninterrupted(w: World, c: Conn)
    requires In(w, c, Serving)
    ensures var closing := Step(w, Close(c)).value;
      var taken := Step(closing, Take(c)).value;
      var released := Step(taken, Release(c)).value;
      var done := Step(released, Forget(c));
      && done.Some?
      && done.value.tables == Untracked(WithoutJoin(w.tables, c.key), c)
      && done.value.closed == w.closed + {c}
      && done.value.handlers[c].released == w.handlers[c].released + OptionSeq(JoinAt(w.tables, c.key))
  {}

  /** The condition matters: untrackConn closes the socket before it takes the join, and when the
      address comes back in between, the first handler releases the second one's join, and the
      first one's is gone from the table without a release. */
  lemma ReusedAddressLosesAJoin(key: Key, first: Join, second: Join)
    requires first != second
    ensures var c, d := Conn(0, key), Conn(1, key);
      exists actions :: Run(actions).Some? && LosesJoin(Run(actions).value, c, d, first, second)
  {
    hide Run, Step;
    var c, d := Conn(0, key), Conn(1, key);
    var run, w := ComesBack(c, d, first, second);
    run, w := TakeAndRelease(run, c);
    assert LosesJoin(w, c, d, first, second);
  }

  /** c is closed with its join in the table, and then d comes from the same address. */
  lemma ComesBack(c: Conn, d: Conn, first: Join, second: Join) returns (run: seq<Action>, w: World)
    requires c != d && c.key == d.key
    ensures Run(run) == Some(w) && w.tables.joins == map[c.key := second]
    ensures In(w, c, Closing) && w.handlers[c] == Handler(Closing, [first], [])
    ensures In(w, d, Serving) && w.handlers[d] == Handler(Serving, [second], [])
  {
    assert Run([]) == Some(START);
    hide Run;
    run, w := ComesIn([], START, c, first);
    run, w := Extend(run, Close(c));
    assert w.handlers[c] == Handler(Closing, [first], []);
    run, w := ComesIn(run, w, d, second);
    assert w.handlers[c] == Handler(Closing, [first], []);
  }

  lemma ComesIn(before: seq<Action>, v: World, d: Conn, join: Join) returns (run: seq<Action>, w: World)
    requires Run(before) == Some(v) && d !in v.handlers
    ensures Run(run) == Some(w) && w.tables.joins == v.tables.joins[d.key := join]
    ensures w.handlers == v.handlers[d := Handler(Serving, [join], [])]
  {
    hide Run;
    run, w := Extend(before, Accept(d));
    assert w.handlers == v.handlers[d := Handler(Accepted, [], [])];
    run, w := Extend(run, Track(d));
    assert w.handlers == v.handlers[d := Handler(Serving, [], [])];
    run, w := Extend(run, Resolve(d, join));
    assert w.handlers[d].recorded == [join];
    assert w.handlers == v.handlers[d := Handler(Serving, [join], [])];
  }

  lemma TakeAndRelease(before: seq<Action>, c: Conn) returns (run: seq<Action>, w: World)
    requires Run(before).Some? && In(Run(before).value, c, Closing) && c.key in Run(before).value.tables.joins
    ensures Run(run) == Some(w)
    ensures var v := Run(before).value;
      && w.tables.joins == v.tables.joins - {c.key}
      && w.handlers == v.handlers[c := Handler(Released, v.handlers[c].recorded,
                                               v.handlers[c].released + [v.tables.joins[c.key]])]
  {
    hide Run;
    run, w := Extend(before, Take(c));
    run, w := Extend(run, Release(c));
  }

  lemma Extend(run: seq<Action>, a: Action) returns (more: seq<Action>, w: World)
    requires Run(run).Some? && Step(Run(run).value, a).Some?
    ensures more == run + [a] && Run(more) == Some(w) && Some(w) == Step(Run(run).value, a)
  {
    more := run + [a];
    assert more[..|more| - 1] == run;
    w := Step(Run(run).value, a).value;
  }

  ghost predicate LosesJoin(w: World, c: Conn, d: Conn, first: Join, second: Join) {
    && c in w.handlers && w.handlers[c] == Handler(Released, [first], [second])
    && d in w.handlers && w.handlers[d] == Handler(Serving, [second], [])
    && w.tables.joins == map[]
  }
}
