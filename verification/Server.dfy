/**
 Handlers as objects: the per-connection handler, the pool that reuses handlers, and the
 server's table of which connection owns which handler.
 */
module Server {
  import opened Bytes
  import opened Service

  class Handler {
    var multEnabled: bool
    var multArgs: seq<Args>
    var context: Option<byte>  // the selected database; none once cleared

    constructor ()
      ensures Idle() && context == Some(0)
    {
      multEnabled, multArgs, context := false, [], Some(0);
    }

    predicate Idle()
      reads this
    {
      !multEnabled && multArgs == []
    }

    ghost function CurrentMode(): Mode
      reads this
    {
      Mode(multEnabled, multArgs)
    }

    ghost function With<S>(storage: S): Session<S>
      requires context.Some?
      reads this
    {
      Session(multEnabled, multArgs, context.value, storage)
    }

    /** No result stands for a call that never returns. */
    method Do<S>(run: Interpreter<S>, args: Args, storage: S) returns (r: Option<(S, Reply)>)
      requires context.Some?
      modifies this`context
      ensures var d := Service.Do(run, args, old(context.value), storage);
              if d.None? then r == None
              else r == Some((d.value.1, d.value.2)) && context == Some(d.value.0)
    {
      if |args| < 2 {
        return Some((storage, EMPTY_COMMAND));
      }
      var name := Normalize(args[0]);
      var commandArgs := [name] + args[1..];
      if name !in Commands() {
        return Some((storage, UnknownCommand(name)));
      }
      if name == "DO" {
        return None;
      }
      var (db, storage', reply) := run(name, commandArgs, context.value, storage);
      context := Some(db);
      return Some((storage', reply));
    }

    method Exec<S>(run: Interpreter<S>, storage: S) returns (r: Option<(S, seq<Reply>)>)
      requires context.Some?
      modifies this`context
      ensures var e := Replay(run, multArgs, old(context.value), storage);
              if !multEnabled then r == Some((storage, [])) && context == old(context)
              else if e.None? then r == None
              else r == Some((e.value.1, e.value.2)) && context == Some(e.value.0)
    {
      var results: seq<Reply> := [];
      var current := storage;
      if multEnabled {
        ghost var db0 := context.value;
        assert multArgs[0..] == multArgs;
        PrefixedEmpty(Replay(run, multArgs, db0, storage));
        for i := 0 to |multArgs|
          invariant context.Some?
          invariant Replay(run, multArgs, db0, storage)
                 == Prefixed(results, Replay(run, multArgs[i..], context.value, current))
        {
          assert multArgs[i..][0] == multArgs[i] && multArgs[i..][1..] == multArgs[i + 1..];
          ghost var rest := Replay(run, multArgs[i..], context.value, current);
          var done := Do(run, multArgs[i], current);
          if done.None? {
            return None;
          }
          current := done.value.0;
          PrefixedSnoc(results, done.value.1, Replay(run, multArgs[i + 1..], context.value, current));
          results := results + [done.value.1];
        }
        assert multArgs[|multArgs|..] == [] && results + [] == results;
      }
      return Some((current, results));
    }

    method Apply<S>(run: Interpreter<S>, args: Args, storage: S) returns (r: Option<(S, seq<Reply>)>)
      requires context.Some?
      modifies this
      ensures match Service.Apply(run, old(With(storage)), args)
              case Diverges => r == None
              case Done(session, replies) =>
                && r == Some((session.storage, replies))
                && context.Some? && With(session.storage) == session
    {
      if |args| == 0 {
        return Some((storage, [EMPTY_COMMAND]));
      }
      var name := Normalize(args[0]);
      if name == "MULTI" {
        multEnabled := true;
        return Some((storage, [OK]));
      }
      if name == "DISCARD" {
        multEnabled, multArgs := false, [];
        return Some((storage, [OK]));
      }
      if name == "EXEC" {
        r := Exec(run, storage);
        return;
      }
      if name !in Validations() {
        return Some((storage, [UnknownCommand(name)]));
      }
      if !ArityOk(Validations()[name], |args|) {
        return Some((storage, [WrongArity(name)]));
      }
      if multEnabled {
        multArgs := multArgs + [args];
        return Some((storage, [QUEUED]));
      }
      if name == "DO" {
        var done := Do(run, args, storage);
        return if done.None? then None else Some((done.value.0, [done.value.1]));
      }
      var (db, storage', reply) := run(name, args, context.value, storage);
      context := Some(db);
      return Some((storage', [reply]));
    }

    method Clear()
      modifies this
      ensures Idle() && context == None
    {
      multEnabled := false;
      multArgs := [];
      context := None;
    }
  }

  /** The replies already collected, in front of those of the rest of the queue. */
  ghost function Prefixed<S>(replies: seq<Reply>, rest: Option<(byte, S, seq<Reply>)>): Option<(byte, S, seq<Reply>)> {
    if rest.None? then None else Some((rest.value.0, rest.value.1, replies + rest.value.2))
  }

  lemma PrefixedEmpty<S>(rest: Option<(byte, S, seq<Reply>)>)
    ensures Prefixed([], rest) == rest
  {
    if rest.Some? {
      assert [] + rest.value.2 == rest.value.2;
    }
  }

  lemma PrefixedSnoc<S>(replies: seq<Reply>, reply: Reply, rest: Option<(byte, S, seq<Reply>)>)
    ensures Prefixed(replies, Prefixed([reply], rest)) == Prefixed(replies + [reply], rest)
  {
    if rest.Some? {
      assert replies + ([reply] + rest.value.2) == replies + [reply] + rest.value.2;
    }
  }

  class Pool {
    var refs: seq<Handler>

    constructor ()
      ensures refs == []
    {
      refs := [];
    }

    ghost predicate Valid()
      reads this, refs
    {
      && (forall i, j :: 0 <= i < j < |refs| ==> refs[i] != refs[j])
      && (forall h :: h in refs ==> h.Idle())
    }

    /** Any pooled handler, or a new one; its context becomes that of the new connection. */
    method Get(db: byte) returns (handler: Handler)
      requires Valid()
      modifies this, refs
      ensures Valid()
      ensures handler.context == Some(db) && handler.Idle()
      ensures handler !in refs && forall h :: h in refs ==> h in old(refs)
      ensures fresh(handler) || handler in old(refs)
      ensures forall h :: h in old(refs) && h != handler ==> h in refs && unchanged(h)
    {
      if * {
        handler := new Handler();
      } else if refs == [] {
        handler := new Handler();
      } else {
        var i :| 0 <= i < |refs|;
        handler := refs[i];
        assert handler in refs;
        assert refs == refs[..i] + [handler] + refs[i + 1..];
        refs := refs[..i] + refs[i + 1..];
      }
      handler.context := Some(db);
    }

    method Free(handler: Handler)
      modifies this, handler
      ensures handler.Idle() && handler.context == None
      ensures refs == old(refs) + [handler]
    {
      handler.Clear();
      refs := refs + [handler];
    }
  }

  /** What an open connection has sent, and the database it is on. */
  datatype Connection = Connection(history: seq<Event>, db: byte)

  class Server {
    const pool: Pool
    var handlers: map<int64, Handler>
    ghost var connections: map<int64, Connection>  // the open ones

    constructor ()
      ensures Valid() && handlers == map[] && fresh(pool)
    {
      pool := new Pool();
      handlers := map[];
      connections := map[];
    }

    /** No handler has two owners, or an owner and a place in the pool. */
    ghost predicate Ownership()
      reads this, pool
    {
      && (forall a, b :: a in handlers && b in handlers && handlers[a] == handlers[b] ==> a == b)
      && (forall id :: id in handlers ==> handlers[id] !in pool.refs)
    }

    /**
     Ownership, and no trace of one connection in another: pooled handlers are pooled once and
     idle, the MULTI state of a connection is that of its own history since it was accepted, and
     its handler is on its database.
     */
    ghost predicate Valid()
      reads this, pool, pool.refs, handlers.Values
    {
      && Ownership()
      && pool.Valid()
      && connections.Keys == handlers.Keys
      && (forall id :: id in handlers ==>
            && handlers[id].context == Some(connections[id].db)
            && handlers[id].CurrentMode() == ModeAfter(connections[id].history))
    }

    method OnAccept(connID: int64)
      requires Valid()
      modifies this, pool, pool.refs
      ensures Valid() && connID in handlers
      ensures handlers[connID].Idle() && handlers[connID].context == Some(0)
      ensures handlers == old(handlers)[connID := handlers[connID]]
      ensures connections == old(connections)[connID := Connection([], 0)]
      ensures handlers[connID] !in old(handlers.Values)
      ensures fresh(handlers[connID]) || handlers[connID] in old(pool.refs)
      ensures forall h :: h in pool.refs ==> h in old(pool.refs)
    {
      hide ModeAfter;
      var handler := pool.Get(0);
      assert handler !in handlers.Values;
      Own(connID, handler);
    }

    /** The table takes an idle handler that nobody owns. */
    method Own(connID: int64, handler: Handler)
      requires Valid()
      requires handler !in handlers.Values && handler !in pool.refs
      requires handler.Idle() && handler.context == Some(0)
      modifies this
      ensures Valid()
      ensures handlers == old(handlers)[connID := handler]
      ensures connections == old(connections)[connID := Connection([], 0)]
    {
      assert ModeAfter([]) == Mode(false, []);
      hide ModeAfter;
      handlers := handlers[connID := handler];
      connections := connections[connID := Connection([], 0)];
    }

    method OnClosed(connID: int64)
      requires Valid()
      modifies this, pool, handlers.Values
      ensures Valid()
      ensures handlers == old(handlers) - {connID} && connections == old(connections) - {connID}
      ensures pool.refs == old(pool.refs) + if connID in old(handlers) then [old(handlers)[connID]] else []
    {
      if connID in handlers {
        var dispatcher := handlers[connID];
        handlers := handlers - {connID};
        connections := connections - {connID};
        pool.Free(dispatcher);
      } else {
        assert handlers - {connID} == handlers && connections - {connID} == connections;
      }
    }

    /** Clears every handler and forgets it; none of them goes back to the pool. */
    method Close()
      requires Valid()
      modifies this, handlers.Values
      ensures Valid() && handlers == map[] && connections == map[] && pool.refs == old(pool.refs)
      ensures forall h :: h in old(handlers.Values) ==> h.Idle() && h.context == None
    {
      hide Ownership;
      var remaining := handlers.Values;
      while remaining != {}
        invariant remaining <= handlers.Values == old(handlers.Values)
        invariant handlers == old(handlers) && connections == old(connections)
        invariant forall h :: h in handlers.Values - remaining ==> h.Idle() && h.context == None
        invariant pool.refs == old(pool.refs) && Ownership()
        invariant pool.Valid()
        decreases |remaining|
      {
        var handler :| handler in remaining;
        handler.Clear();
        remaining := remaining - {handler};
      }
      ForgetAll();
    }

    /** Without owners, what is pooled is all there is to keep. */
    method ForgetAll()
      requires pool.Valid()
      modifies this
      ensures Valid() && handlers == map[] && connections == map[]
    {
      handlers := map[];
      connections := map[];
    }

    /**
     A request on a connection. Replies, storage and selected database are those that the
     connection's own history calls for; the request may never return, and an unknown
     connection gets an error.
     */
    method OnHandler<S>(connID: int64, run: Interpreter<S>, args: Args, storage: S)
        returns (r: Option<(S, seq<Reply>)>)
      requires Valid()
      modifies this`connections, if connID in handlers then {handlers[connID]} else {}
      ensures handlers == old(handlers) && pool.refs == old(pool.refs)
      ensures connID !in handlers ==>
                r == Some((storage, [CONNECTION_NOT_FOUND])) && Valid() && connections == old(connections)
      ensures connID in handlers ==>
                var before := old(connections)[connID];
                match Answer(run, before.history, args, before.db, storage)
                case None => r == None
                case Some(turn) =>
                  && r == Some((turn.storage, turn.replies)) && Valid()
                  && connections
                     == old(connections)[connID := Connection(before.history + [Call(args)], turn.db)]
    {
      hide ModeAfter, Named, Answer;
      if connID !in handlers {
        return Some((storage, [CONNECTION_NOT_FOUND]));
      }
      ghost var before := connections[connID];
      r := Serve(handlers[connID], run, args, storage, before.history);
      if r.Some? {
        ghost var db := handlers[connID].context.value;
        connections := connections[connID := Connection(before.history + [Call(args)], db)];
      }
      return r;
    }
  }

  const CONNECTION_NOT_FOUND: Reply := Error("ERR connection not found")

  /** A request seen from outside: the handler does what the history of its connection calls for. */
  method Serve<S>(handler: Handler, run: Interpreter<S>, args: Args, storage: S, ghost h: seq<Event>)
      returns (r: Option<(S, seq<Reply>)>)
    requires handler.context.Some? && handler.CurrentMode() == ModeAfter(h)
    modifies handler
    ensures match Answer(run, h, args, old(handler.context.value), storage)
            case None => r == None
            case Some(turn) =>
              && r == Some((turn.storage, turn.replies))
              && handler.context == Some(turn.db) && handler.CurrentMode() == ModeAfter(h + [Call(args)])
  {
    hide ModeAfter, ModeStep, Named, Service.Apply, Answer;
    ghost var session := handler.With(storage);
    AnswerIsApply(run, h, args, session);
    r := handler.Apply(run, args, storage);
    if r.Some? {
      ApplyMovesMode(run, session, args);
      ModeAfterSnoc(h, Call(args));
    }
  }

  lemma ModeAfterSnoc(h: seq<Event>, e: Event)
    ensures ModeAfter(h + [e]) == ModeStep(ModeAfter(h), e)
  {
    assert (h + [e])[..|h|] == h;
  }

  datatype ConnectionEvent = Accept(id: int64) | Closed(id: int64) | Shutdown | Request(id: int64, args: Args)

  // ----- the reference: one storage, and a history and a database per open connection -----

  datatype World<S> = World(connections: map<int64, Connection>, storage: S, replies: seq<seq<Reply>>)

  /** None once a request never returns. */
  function WorldStep<S>(run: Interpreter<S>, w: World<S>, e: ConnectionEvent): Option<World<S>> {
    match e
    case Accept(id) => Some(w.(connections := w.connections[id := Connection([], 0)]))
    case Closed(id) => Some(w.(connections := w.connections - {id}))
    case Shutdown => Some(w.(connections := map[]))
    case Request(id, args) =>
      if id !in w.connections then Some(w.(replies := w.replies + [[CONNECTION_NOT_FOUND]]))
      else
        var c := w.connections[id];
        match Answer(run, c.history, args, c.db, w.storage)
        case None => None
        case Some(turn) =>
          Some(World(w.connections[id := Connection(c.history + [Call(args)], turn.db)],
                     turn.storage, w.replies + [turn.replies]))
  }

  function WorldAfter<S>(run: Interpreter<S>, w: World<S>, events: seq<ConnectionEvent>): Option<World<S>>
    decreases |events|
  {
    if events == [] then Some(w)
    else
      var before := WorldAfter(run, w, events[..|events| - 1]);
      if before.None? then None else WorldStep(run, before.value, events[|events| - 1])
  }

  lemma WorldSnoc<S>(run: Interpreter<S>, w: World<S>, events: seq<ConnectionEvent>, i: nat)
    requires i < |events|
    ensures WorldAfter(run, w, events[..i + 1])
         == var before := WorldAfter(run, w, events[..i]);
            if before.None? then None else WorldStep(run, before.value, events[i])
  {
    assert events[..i + 1][..i] == events[..i];
  }

  lemma {:induction false} NeverReturned<S>(run: Interpreter<S>, w: World<S>, events: seq<ConnectionEvent>, i: nat)
    requires i <= |events|
    requires WorldAfter(run, w, events[..i]) == None
    ensures WorldAfter(run, w, events) == None
    decreases |events| - i
  {
    if i == |events| {
      assert events[..i] == events;
    } else {
      WorldSnoc(run, w, events, i);
      NeverReturned(run, w, events, i + 1);
    }
  }

  // ----- isolation -----

  /** What a connection has sent, if it is open. */
  function Sent<S>(w: World<S>, id: int64): Option<seq<Event>> {
    if id in w.connections then Some(w.connections[id].history) else None
  }

  /** The same, from the events of that connection and shutdowns alone. */
  function OwnHistory(start: Option<seq<Event>>, events: seq<ConnectionEvent>, id: int64): Option<seq<Event>>
    decreases |events|
  {
    if events == [] then start
    else
      var before, e := OwnHistory(start, events[..|events| - 1], id), events[|events| - 1];
      if e.Shutdown? then None
      else if e.id != id then before
      else
        match e
        case Accept(_) => Some([])
        case Closed(_) => None
        case Request(_, args) => if before.Some? then Some(before.value + [Call(args)]) else None
  }

  /** Nothing that other connections do gets into the history, hence the queue, of a connection. */
  lemma {:induction false} Isolation<S>(run: Interpreter<S>, w: World<S>, events: seq<ConnectionEvent>, id: int64)
    requires WorldAfter(run, w, events).Some?
    ensures Sent(WorldAfter(run, w, events).value, id) == OwnHistory(Sent(w, id), events, id)
    decreases |events|
  {
    hide Answer;
    if events == [] {
    } else {
      Isolation(run, w, events[..|events| - 1], id);
    }
  }

  // ----- without DO -----

  ghost predicate AllWithoutDo(connections: map<int64, Connection>) {
    forall id :: id in connections ==> WithoutDo(connections[id].history)
  }

  predicate AsksDo(e: ConnectionEvent) {
    e.Request? && Named(e.args, "DO")
  }

  lemma AnswersWithoutDo<S>(run: Interpreter<S>, h: seq<Event>, args: Args, db: byte, storage: S)
    requires WithoutDo(h) && !Named(args, "DO")
    ensures Answer(run, h, args, db, storage).Some?
    ensures WithoutDo(h + [Call(args)])
  {
    QueueIsHistory(h);
    QueueWithoutDo(h);
    ReplayReturnsUnlessDo(run, Queued(h), db, storage);
  }

  lemma QuietStep<S>(run: Interpreter<S>, w: World<S>, e: ConnectionEvent)
    requires AllWithoutDo(w.connections) && !AsksDo(e)
    ensures var w' := WorldStep(run, w, e); w'.Some? && AllWithoutDo(w'.value.connections)
  {
    assert WithoutDo([]);
    hide Named, WithoutDo, Answer;
    if e.Request? && e.id in w.connections {
      AnswersWithoutDo(run, w.connections[e.id].history, e.args, w.connections[e.id].db, w.storage);
    }
  }

  /** If no connection asked for DO and none does, every request returns. */
  lemma {:induction false} QuietReturns<S>(run: Interpreter<S>, w: World<S>, events: seq<ConnectionEvent>)
    requires AllWithoutDo(w.connections)
    requires forall e :: e in events ==> !AsksDo(e)
    ensures var w' := WorldAfter(run, w, events); w'.Some? && AllWithoutDo(w'.value.connections)
    decreases |events|
  {
    hide Named, WithoutDo, AllWithoutDo, AsksDo, WorldStep;
    if events == [] {
    } else {
      var n := |events| - 1;
      assert forall e :: e in events[..n] ==> e in events;
      QuietReturns(run, w, events[..n]);
      assert events[n] in events;
      QuietStep(run, WorldAfter(run, w, events[..n]).value, events[n]);
    }
  }

  // ----- the server as a whole -----

  /** One event at the server. No result stands for a request that never returns. */
  method Handle<S>(server: Server, run: Interpreter<S>, storage: S, replies: seq<seq<Reply>>, e: ConnectionEvent,
                   ghost w: World<S>) returns (r: Option<(S, seq<seq<Reply>>)>)
    requires server.Valid() && w == World(server.connections, storage, replies)
    modifies server, server.pool, server.pool.refs, server.handlers.Values
    ensures match WorldStep(run, w, e)
            case None => r == None
            case Some(w') =>
              r == Some((w'.storage, w'.replies)) && server.Valid() && server.connections == w'.connections
    ensures forall h :: h in server.pool.refs ==> h in old(server.pool.refs) || h in old(server.handlers.Values)
    ensures forall h :: h in server.handlers.Values ==>
              fresh(h) || h in old(server.pool.refs) || h in old(server.handlers.Values)
  {
    hide Answer, Named;
    match e {
      case Accept(id) => server.OnAccept(id);
      case Closed(id) => server.OnClosed(id);
      case Shutdown => server.Close();
      case Request(id, args) =>
        var done := server.OnHandler(id, run, args, storage);
        return if done.None? then None else Some((done.value.0, replies + [done.value.1]));
    }
    return Some((storage, replies));
  }

  /**
   Every interleaving of accepting, closing, shutting down and serving does what the reference
   does that keeps one storage, and a history and a database per open connection: the same
   replies in the same order, the same final storage, and exactly its connections open, each on
   its database with the queue its own requests call for. It gets to the end exactly when the
   reference does, which it always does without a DO among the requests, now or before. A
   connection is what its id says it is: the ids of connections open at the same time are
   assumed distinct, as the server's table of handlers assumes too.
   */
  method Drive<S>(server: Server, run: Interpreter<S>, storage: S, events: seq<ConnectionEvent>)
      returns (r: Option<(S, seq<seq<Reply>>)>)
    requires server.Valid()
    modifies server, server.pool, server.pool.refs, server.handlers.Values
    ensures match WorldAfter(run, World(old(server.connections), storage, []), events)
            case None => r == None
            case Some(w) =>
              && r == Some((w.storage, w.replies)) && server.Valid() && server.connections == w.connections
              && forall id :: id in server.handlers ==>
                   server.handlers[id].multArgs == Queued(w.connections[id].history)
    ensures AllWithoutDo(old(server.connections)) && (forall e :: e in events ==> !AsksDo(e)) ==> r.Some?
  {
    hide Named, AllWithoutDo, WithoutDo, AsksDo, WorldStep;
    ghost var w0 := World(server.connections, storage, []);
    ghost var w := w0;
    ghost var known := (set h | h in server.pool.refs) + server.handlers.Values;
    var current, replies := storage, [];
    if AllWithoutDo(server.connections) && forall e :: e in events ==> !AsksDo(e) {
      QuietReturns(run, w0, events);
    }
    for i := 0 to |events|
      invariant WorldAfter(run, w0, events[..i]) == Some(w)
      invariant server.Valid() && w == World(server.connections, current, replies)
      invariant forall h :: h in server.pool.refs ==> fresh(h) || h in known
      invariant forall h :: h in server.handlers.Values ==> fresh(h) || h in known
    {
      WorldSnoc(run, w0, events, i);
      var done := Handle(server, run, current, replies, events[i], w);
      if done.None? {
        NeverReturned(run, w0, events, i + 1);
        return None;
      }
      w := WorldStep(run, w, events[i]).value;
      current, replies := done.value.0, done.value.1;
    }
    assert events[..|events|] == events;
    forall id | id in server.handlers
      ensures server.handlers[id].multArgs == Queued(server.connections[id].history)
    {
      QueueIsHistory(server.connections[id].history);
    }
    return Some((current, replies));
  }
}
