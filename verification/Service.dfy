/**
 The command handler of one connection: dispatch, arity checks, MULTI, DISCARD and EXEC.
 What the single commands do is a parameter `run`, so everything here holds for every
 implementation of them. Strings hold one character per byte.
 */
module Service {
  import opened Bytes

  type Args = seq<string>

  datatype Reply = Error(message: string) | Response(text: string) | Nil

  /** Name, arguments (the name first), selected database, storage; and the same afterwards. */
  type Interpreter<!S> = (string, Args, byte, S) -> (byte, S, Reply)

  datatype Validation = Validation(minArgs: int, maxArgs: int)

  const EMPTY_COMMAND: Reply := Error("ERR empty command")
  const OK: Reply := Response("OK")
  const QUEUED: Reply := Response("QUEUED")

  function UnknownCommand(name: string): Reply {
    Error("ERR unknown command '" + name + "'")
  }

  function WrongArity(name: string): Reply {
    Error("ERR wrong number of arguments for '" + name + "' command")
  }

  // ----- tables -----

  function Validations(): map<string, Validation> {
    map[
      "DEL" := Validation(2, -1), "GET" := Validation(2, 2), "SET" := Validation(3, 5),
      "SEL" := Validation(2, 2), "DO" := Validation(2, -1),
      "TTL" := Validation(2, 2), "EXPIRE" := Validation(3, 3), "PERSIST" := Validation(2, 2),
      "EXISTS" := Validation(2, 0), "LLEN" := Validation(2, 2), "LINDEX" := Validation(3, 3),
      "LSET" := Validation(4, 4), "LPUSH" := Validation(3, -1), "RPUSH" := Validation(3, -1),
      "LPOP" := Validation(2, 2), "RPOP" := Validation(2, 2), "LRANGE" := Validation(4, 4),
      "FLUSHALL" := Validation(1, 1), "SADD" := Validation(3, -1), "SREM" := Validation(3, -1),
      "SMEMBERS" := Validation(2, 2), "SISMEMBER" := Validation(3, 3),
      "ZADD" := Validation(4, 4), "ZRANGE" := Validation(4, 4), "ZCOUNT" := Validation(4, 4),
      "INCR" := Validation(2, 2), "INCRBY" := Validation(3, 3),
      "DECR" := Validation(2, 2), "DECRBY" := Validation(3, 3),
      "APPEND" := Validation(3, 3), "PING" := Validation(1, 2), "DELETE" := Validation(2, -1)
    ]
  }

  function Commands(): set<string> {
    {
      "DEL", "GET", "SET", "SEL", "DO", "TTL", "EXPIRE", "PERSIST",
      "EXISTS", "LLEN", "LINDEX", "LSET", "LPUSH", "RPUSH", "LPOP", "RPOP", "LRANGE",
      "FLUSHALL", "SADD", "SREM", "SMEMBERS", "SISMEMBER", "ZADD", "ZRANGE", "ZCOUNT",
      "INCR", "INCRBY", "DECR", "DECRBY", "APPEND", "PING", "DELETE"
    }
  }

  predicate ArityOk(v: Validation, count: nat) {
    v.minArgs <= count && (v.maxArgs > 0 ==> count <= v.maxArgs)
  }

  // ----- names -----

  predicate IsSpace(c: char) {
    c == ' ' || '\U{0009}' <= c <= '\U{000D}'
  }

  function TrimLeft(s: string): string {
    if s != "" && IsSpace(s[0]) then TrimLeft(s[1..]) else s
  }

  function TrimRight(s: string): string {
    if s != "" && IsSpace(s[|s| - 1]) then TrimRight(s[..|s| - 1]) else s
  }

  function Upper(c: char): char {
    if 'a' <= c <= 'z' then (c as int - 32) as char else c
  }

  function ToUpper(s: string): (r: string)
    ensures |r| == |s| && forall i :: 0 <= i < |s| ==> r[i] == Upper(s[i])
  {
    seq(|s|, i requires 0 <= i < |s| => Upper(s[i]))
  }

  function Normalize(name: string): string {
    ToUpper(TrimRight(TrimLeft(name)))
  }

  lemma {:induction false} TrimmedEnds(s: string)
    ensures TrimLeft(s) != "" ==> !IsSpace(TrimLeft(s)[0])
    ensures TrimRight(s) != "" ==> !IsSpace(TrimRight(s)[|TrimRight(s)| - 1])
    ensures TrimRight(s) <= s
    decreases |s|
  {
    if s == "" {
    } else {
      TrimmedEnds(s[1..]);
      TrimmedEnds(s[..|s| - 1]);
    }
  }

  /** Replaying a command under its normalized name finds the same table entry. */
  lemma NormalizeIdempotent(name: string)
    ensures Normalize(Normalize(name)) == Normalize(name)
  {
    TrimmedEnds(name);
    TrimmedEnds(TrimLeft(name));
    var t := TrimRight(TrimLeft(name));
    var u := Normalize(name);
    assert forall c: char :: IsSpace(Upper(c)) <==> IsSpace(c);
    assert forall c: char :: Upper(Upper(c)) == Upper(c);
    if u != "" {
      assert t[0] == TrimLeft(name)[0];
      assert !IsSpace(u[0]) && !IsSpace(u[|u| - 1]);
    }
    assert TrimRight(TrimLeft(u)) == u;
  }

  lemma {:induction false} TrimsSpaces(before: string, name: string, after: string)
    requires forall c :: c in before + after ==> IsSpace(c)
    requires name != "" && !IsSpace(name[0]) && !IsSpace(name[|name| - 1])
    ensures TrimRight(TrimLeft(before + name + after)) == name
    decreases |before| + |after|
  {
    if before != "" {
      assert before[0] in before + after;
      assert (before + name + after)[0] == before[0];
      assert (before + name + after)[1..] == before[1..] + name + after;
      TrimsSpaces(before[1..], name, after);
    } else {
      assert before + name + after == name + after;
      assert TrimLeft(name + after) == name + after;
      TrimsRight(name, after);
    }
  }

  lemma {:induction false} TrimsRight(name: string, after: string)
    requires forall c :: c in after ==> IsSpace(c)
    requires name != "" && !IsSpace(name[|name| - 1])
    ensures TrimRight(name + after) == name
    decreases |after|
  {
    if after == "" {
      assert name + after == name;
    } else {
      var n := |after| - 1;
      assert after[n] in after;
      assert (name + after)[..|name + after| - 1] == name + after[..n];
      TrimsRight(name, after[..n]);
    }
  }

  /**
   A name is found without the blanks (space, tab, line feed, vertical tab, form feed, carriage
   return) around it and with its small letters replaced by capitals, every other character
   as it is.
   */
  lemma NormalizeExactly(before: string, name: string, after: string)
    requires forall c :: c in before + after ==> c as int == 32 || 9 <= c as int <= 13
    requires name != "" && forall c :: c in name ==> !(c as int == 32 || 9 <= c as int <= 13)
    ensures var r := Normalize(before + name + after);
            && |r| == |name|
            && forall i :: 0 <= i < |name| ==>
                 r[i] as int == name[i] as int - if 97 <= name[i] as int <= 122 then 32 else 0
  {
    assert name[0] in name && name[|name| - 1] in name;
    TrimsSpaces(before, name, after);
  }

  // ----- one connection -----

  /** MULTI mode and queue of a connection, its selected database, and the storage. */
  datatype Session<S> = Session(multi: bool, queue: seq<Args>, db: byte, storage: S)

  /** The call returns with replies, or it never returns. */
  datatype Outcome<S> = Done(session: Session<S>, replies: seq<Reply>) | Diverges

  /** Name and arity pass: the command is queued in MULTI mode and dispatched otherwise. */
  predicate Accepted(args: Args) {
    && args != []
    && var name := Normalize(args[0]);
       && name != "MULTI" && name != "DISCARD" && name != "EXEC"
       && name in Validations() && ArityOk(Validations()[name], |args|)
  }

  predicate Named(args: Args, name: string) {
    args != [] && Normalize(args[0]) == name
  }

  /**
   Re-dispatch of a queued command. On DO it looks itself up again and again with the same
   arguments, so there is no result.
   */
  function Do<S>(run: Interpreter<S>, args: Args, db: byte, storage: S): Option<(byte, S, Reply)> {
    if |args| < 2 then Some((db, storage, EMPTY_COMMAND))
    else
      var name := Normalize(args[0]);
      if name !in Commands() then Some((db, storage, UnknownCommand(name)))
      else if name == "DO" then None
      else Some(run(name, [name] + args[1..], db, storage))
  }

  /** The recursion of `do` as the command table spells it, cut off after `fuel` calls. */
  function DoWithin<S>(fuel: nat, run: Interpreter<S>, args: Args, db: byte, storage: S): Option<(byte, S, Reply)> {
    if fuel == 0 then None
    else if |args| < 2 then Some((db, storage, EMPTY_COMMAND))
    else
      var name := Normalize(args[0]);
      var commandArgs := [name] + args[1..];
      if name !in Commands() then Some((db, storage, UnknownCommand(name)))
      else if name == "DO" then DoWithin(fuel - 1, run, commandArgs, db, storage)
      else Some(run(name, commandArgs, db, storage))
  }

  /** A table lookup followed by the call, as Apply does it with the arguments unchanged. */
  function Dispatch<S>(run: Interpreter<S>, args: Args, db: byte, storage: S): Option<(byte, S, Reply)>
    requires args != []
  {
    var name := Normalize(args[0]);
    if name == "DO" then Do(run, args, db, storage) else Some(run(name, args, db, storage))
  }

  function Replay<S>(run: Interpreter<S>, queue: seq<Args>, db: byte, storage: S): Option<(byte, S, seq<Reply>)>
    decreases |queue|
  {
    if queue == [] then Some((db, storage, []))
    else
      var first := Do(run, queue[0], db, storage);
      if first.None? then None
      else
        var rest := Replay(run, queue[1..], first.value.0, first.value.1);
        if rest.None? then None else Some((rest.value.0, rest.value.1, [first.value.2] + rest.value.2))
  }

  function Apply<S>(run: Interpreter<S>, s: Session<S>, args: Args): Outcome<S> {
    if args == [] then Done(s, [EMPTY_COMMAND])
    else
      var name := Normalize(args[0]);
      if name == "MULTI" then Done(s.(multi := true), [OK])
      else if name == "DISCARD" then Done(s.(multi := false, queue := []), [OK])
      else if name == "EXEC" then
        if !s.multi then Done(s, [])
        else
          var r := Replay(run, s.queue, s.db, s.storage);
          if r.None? then Diverges else Done(s.(db := r.value.0, storage := r.value.1), r.value.2)
      else if name !in Validations() then Done(s, [UnknownCommand(name)])
      else if !ArityOk(Validations()[name], |args|) then Done(s, [WrongArity(name)])
      else if s.multi then Done(s.(queue := s.queue + [args]), [QUEUED])
      else
        var r := Dispatch(run, args, s.db, s.storage);
        if r.None? then Diverges else Done(s.(db := r.value.0, storage := r.value.1), [r.value.2])
  }

  // ----- DO -----

  /** A proper call of DO, from which `do` never returns. */
  predicate Loops(args: Args) {
    |args| >= 2 && Named(args, "DO")
  }

  /** `do` returns, within a single call, exactly when it is not a proper call of DO. */
  lemma {:induction false} DoReturnsUnlessDo<S>(fuel: nat, run: Interpreter<S>, args: Args, db: byte, storage: S)
    ensures Do(run, args, db, storage) == None <==> Loops(args)
    ensures fuel > 0 || Do(run, args, db, storage) == None ==>
              DoWithin(fuel, run, args, db, storage) == Do(run, args, db, storage)
  {
    if fuel == 0 || !Loops(args) {
    } else {
      var again := ["DO"] + args[1..];
      NormalizeIdempotent(args[0]);
      assert again[0] == "DO" && Named(again, "DO");
      DoReturnsUnlessDo(fuel - 1, run, again, db, storage);
    }
  }

  /** A replay does not return exactly when the queue holds such a command. */
  lemma {:induction false} ReplayReturnsUnlessDo<S>(run: Interpreter<S>, queue: seq<Args>, db: byte, storage: S)
    ensures Replay(run, queue, db, storage).None? <==> exists q :: q in queue && Loops(q)
    decreases |queue|
  {
    hide Named;
    if queue == [] {
    } else {
      DoReturnsUnlessDo(0, run, queue[0], db, storage);
      assert queue == [queue[0]] + queue[1..];
      var first := Do(run, queue[0], db, storage);
      if first.None? {
        assert queue[0] in queue;
      } else {
        ReplayReturnsUnlessDo(run, queue[1..], first.value.0, first.value.1);
        assert forall q :: q in queue <==> q == queue[0] || q in queue[1..];
      }
    }
  }

  /**
   A call does not return in exactly two cases: EXEC in MULTI mode over a queue that holds a
   DO, and an accepted DO outside MULTI mode. Queueing a DO, or calling it with too few
   arguments, returns.
   */
  lemma ApplyReturnsUnlessDo<S>(run: Interpreter<S>, s: Session<S>, args: Args)
    ensures Apply(run, s, args).Diverges? <==>
              || (Named(args, "EXEC") && s.multi && exists q :: q in s.queue && Loops(q))
              || (Named(args, "DO") && !s.multi && Accepted(args))
  {
    ReplayReturnsUnlessDo(run, s.queue, s.db, s.storage);
    if args != [] {
      DoReturnsUnlessDo(0, run, args, s.db, s.storage);
    }
  }

  lemma OwnName(name: string)
    requires name != "" && forall c :: c in name ==> !IsSpace(c) && Upper(c) == c
    ensures Normalize(name) == name
  {
    assert name[0] in name && name[|name| - 1] in name;
    assert TrimLeft(name) == name && TrimRight(name) == name;
  }

  /**
   Inputs that reach both exceptions: PING and FLUSHALL are accepted without an argument and so
   queued, where replay answers them with an error; DO with an argument is accepted and never
   returns outside MULTI mode.
   */
  lemma AcceptedExceptions<S>(run: Interpreter<S>, s: Session<S>, other: string)
    ensures Accepted(["PING"]) && Accepted(["FLUSHALL"]) && Accepted(["DO", other])
    ensures Do(run, ["PING"], s.db, s.storage) == Some((s.db, s.storage, EMPTY_COMMAND))
    ensures !s.multi ==> Apply(run, s, ["DO", other]).Diverges?
  {
    AcceptedNames(other);
    hide Normalize, Accepted, Apply;
    ApplyReturnsUnlessDo(run, s, ["DO", other]);
  }

  lemma AcceptedNames(other: string)
    ensures Accepted(["PING"]) && Accepted(["FLUSHALL"]) && Accepted(["DO", other]) && Named(["DO", other], "DO")
  {
    OwnName("PING");
    OwnName("FLUSHALL");
    OwnName("DO");
    hide Normalize;
  }

  // ----- what is refused, and what is only recorded -----

  const ONE_ARGUMENT: set<string> :=
    {"GET", "SEL", "TTL", "PERSIST", "LLEN", "LPOP", "RPOP", "SMEMBERS", "INCR", "DECR"}
  const TWO_ARGUMENTS: set<string> := {"EXPIRE", "LINDEX", "SISMEMBER", "INCRBY", "DECRBY", "APPEND"}
  const THREE_ARGUMENTS: set<string> := {"LSET", "LRANGE", "ZADD", "ZRANGE", "ZCOUNT"}
  const SOME_KEYS: set<string> := {"DEL", "DELETE", "DO", "EXISTS"}
  const KEY_AND_VALUES: set<string> := {"LPUSH", "RPUSH", "SADD", "SREM"}

  lemma FixedArity(name: string)
    ensures name in ONE_ARGUMENT ==> name in Validations() && Validations()[name] == Validation(2, 2)
    ensures name in TWO_ARGUMENTS ==> name in Validations() && Validations()[name] == Validation(3, 3)
    ensures name in THREE_ARGUMENTS ==> name in Validations() && Validations()[name] == Validation(4, 4)
  {
  }

  lemma OpenArity(name: string)
    ensures name in SOME_KEYS ==>
              name in Validations() && Validations()[name].minArgs == 2 && Validations()[name].maxArgs <= 0
    ensures name in KEY_AND_VALUES ==> name in Validations() && Validations()[name] == Validation(3, -1)
    ensures name == "SET" ==> name in Validations() && Validations()[name] == Validation(3, 5)
    ensures name == "PING" ==> name in Validations() && Validations()[name] == Validation(1, 2)
    ensures name == "FLUSHALL" ==> name in Validations() && Validations()[name] == Validation(1, 1)
  {
  }

  lemma NoOtherArity(name: string)
    requires name in Validations()
    ensures name in ONE_ARGUMENT || name in TWO_ARGUMENTS || name in THREE_ARGUMENTS || name in SOME_KEYS
         || name in KEY_AND_VALUES || name in {"SET", "PING", "FLUSHALL"}
    ensures name !in {"MULTI", "DISCARD", "EXEC"}
  {
  }

  /** How many arguments each command takes after its name; there are no other commands. */
  lemma AcceptedExactly(args: Args)
    requires args != []
    ensures var name, n := Normalize(args[0]), |args| - 1;
            && (name in ONE_ARGUMENT ==> (Accepted(args) <==> n == 1))
            && (name in TWO_ARGUMENTS ==> (Accepted(args) <==> n == 2))
            && (name in THREE_ARGUMENTS ==> (Accepted(args) <==> n == 3))
            && (name in SOME_KEYS ==> (Accepted(args) <==> n >= 1))
            && (name in KEY_AND_VALUES ==> (Accepted(args) <==> n >= 2))
            && (name == "SET" ==> (Accepted(args) <==> 2 <= n <= 4))
            && (name == "PING" ==> (Accepted(args) <==> n <= 1))
            && (name == "FLUSHALL" ==> (Accepted(args) <==> n == 0))
            && (Accepted(args) ==>
                  || name in ONE_ARGUMENT || name in TWO_ARGUMENTS || name in THREE_ARGUMENTS || name in SOME_KEYS
                  || name in KEY_AND_VALUES || name in {"SET", "PING", "FLUSHALL"})
  {
    var name := Normalize(args[0]);
    FixedArity(name);
    OpenArity(name);
    if name in Validations() {
      NoOtherArity(name);
    }
    hide Normalize, Validations, ONE_ARGUMENT, TWO_ARGUMENTS, THREE_ARGUMENTS, SOME_KEYS, KEY_AND_VALUES;
  }

  /**
   Everything that does not run a command: each mistake gets its own error and changes nothing,
   MULTI and DISCARD answer OK, EXEC outside MULTI answers nothing, and in MULTI mode an
   accepted command is queued, not run.
   */
  lemma NotRun<S>(run: Interpreter<S>, s: Session<S>, args: Args)
    ensures args == [] ==> Apply(run, s, args) == Done(s, [Error("ERR empty command")])
    ensures Named(args, "MULTI") ==> Apply(run, s, args) == Done(s.(multi := true), [Response("OK")])
    ensures Named(args, "DISCARD") ==>
              Apply(run, s, args) == Done(s.(multi := false, queue := []), [Response("OK")])
    ensures Named(args, "EXEC") && !s.multi ==> Apply(run, s, args) == Done(s, [])
    ensures args != [] && !Accepted(args) && Normalize(args[0]) !in {"MULTI", "DISCARD", "EXEC"} ==>
              var name := Normalize(args[0]);
              Apply(run, s, args)
              == Done(s, [Error(if name in Commands() then "ERR wrong number of arguments for '" + name + "' command"
                                else "ERR unknown command '" + name + "'")])
    ensures Accepted(args) && s.multi ==>
              Apply(run, s, args) == Done(s.(queue := s.queue + [args]), [Response("QUEUED")])
  {
    TablesAgree();
    hide Validations, Commands, Normalize;
  }

  // ----- what is run -----

  /** The commands of a list, each called with its arguments as they are, one after the other. */
  function RunEach<S>(run: Interpreter<S>, calls: seq<Args>, db: byte, storage: S): (byte, S, seq<Reply>)
    requires [] !in calls
    decreases |calls|
  {
    if calls == [] then (db, storage, [])
    else
      assert calls[0] in calls;
      var (db1, storage1, reply) := run(Normalize(calls[0][0]), calls[0], db, storage);
      var (db2, storage2, replies) := RunEach(run, calls[1..], db1, storage1);
      (db2, storage2, [reply] + replies)
  }

  ghost predicate Runnable(calls: seq<Args>) {
    forall c :: c in calls ==> c != [] && Accepted(c) && !Named(c, "DO")
  }

  /** Outside MULTI mode every accepted command is run, with or without arguments. */
  lemma {:induction false} IssueRunsEach<S>(run: Interpreter<S>, calls: seq<Args>, s: Session<S>)
    requires !s.multi && Runnable(calls)
    ensures var r := RunEach(run, calls, s.db, s.storage);
            IssueAll(run, calls, s) == Done(s.(db := r.0, storage := r.1), r.2)
    decreases |calls|
  {
    hide Accepted, Validations, Commands, Normalize, Apply;
    if calls == [] {
    } else {
      var c := calls[0];
      assert c in calls;
      assert forall q :: q in calls[1..] ==> q in calls;
      RunOne(run, c, s);
      var (db1, storage1, reply) := run(Normalize(c[0]), c, s.db, s.storage);
      IssueRunsEach(run, calls[1..], s.(db := db1, storage := storage1));
    }
  }

  lemma RunOne<S>(run: Interpreter<S>, args: Args, s: Session<S>)
    requires !s.multi && Accepted(args) && !Named(args, "DO")
    ensures var (db, storage, reply) := run(Normalize(args[0]), args, s.db, s.storage);
            Apply(run, s, args) == Done(s.(db := db, storage := storage), [reply])
  {
    hide Validations, Normalize;
  }

  /** EXEC runs each queued command, provided each has an argument. */
  lemma ExecRunsEach<S(!new)>(run: Interpreter<S>, s: Session<S>, args: Args)
    requires IgnoresName(run) && s.multi && Named(args, "EXEC")
    requires Replayable(s.queue) && Runnable(s.queue)
    ensures var r := RunEach(run, s.queue, s.db, s.storage);
            Apply(run, s, args) == Done(s.(db := r.0, storage := r.1), r.2)
  {
    hide Apply, Runnable, Replayable, IgnoresName;
    ExecIsIssueAll(run, s, args);
    IssueRunsEach(run, s.queue, Session(false, [], s.db, s.storage));
  }

  // ----- replay -----

  /** No command looks at the name it was called by. */
  ghost predicate IgnoresName<S(!new)>(run: Interpreter<S>) {
    forall name, args: Args, args': Args, db, storage ::
      args != [] && args' != [] && args[1..] == args'[1..] ==>
        run(name, args, db, storage) == run(name, args', db, storage)
  }

  /** No command answers with the error that `do` uses for a call that is too short. */
  ghost predicate NeverEmptyCommand<S(!new)>(run: Interpreter<S>) {
    forall name, args: Args, db, storage :: run(name, args, db, storage).2 != EMPTY_COMMAND
  }

  /** Commands that read their arguments from the second on, as all of them do, qualify. */
  lemma TailReadersIgnoreName<S(!new)>(command: (string, Args, byte, S) -> (byte, S, Reply))
    ensures IgnoresName((name: string, args: Args, db: byte, storage: S) =>
              command(name, if args == [] then [] else args[1..], db, storage))
  {
  }

  /** The commands of a queue issued one by one, with MULTI off. */
  function IssueAll<S>(run: Interpreter<S>, queue: seq<Args>, s: Session<S>): Outcome<S>
    decreases |queue|
  {
    if queue == [] then Done(s, [])
    else
      match Apply(run, s, queue[0])
      case Diverges => Diverges
      case Done(s1, replies) =>
        match IssueAll(run, queue[1..], s1)
        case Diverges => Diverges
        case Done(s2, more) => Done(s2, replies + more)
  }

  lemma TablesAgree()
    ensures Validations().Keys == Commands()
  {
  }

  lemma DoIsDispatch<S(!new)>(run: Interpreter<S>, args: Args, db: byte, storage: S)
    requires IgnoresName(run) && Accepted(args) && |args| >= 2
    ensures Do(run, args, db, storage) == Dispatch(run, args, db, storage)
  {
    hide Validations, Commands, Normalize;
    TablesAgree();
    var name := Normalize(args[0]);
    assert ([name] + args[1..])[1..] == args[1..];
  }

  /** One accepted command with MULTI off. */
  lemma IssueOne<S>(run: Interpreter<S>, args: Args, s: Session<S>)
    requires Accepted(args) && !s.multi
    ensures Apply(run, s, args)
         == var r := Dispatch(run, args, s.db, s.storage);
            if r.None? then Diverges else Done(s.(db := r.value.0, storage := r.value.1), [r.value.2])
  {
  }

  /** Every command of the queue is accepted and has an argument. */
  ghost predicate Replayable(queue: seq<Args>) {
    forall args :: args in queue ==> Accepted(args) && |args| >= 2
  }

  /** Replaying a queue of long enough commands is issuing them one by one. */
  lemma {:induction false} ReplayIsIssue<S(!new)>(run: Interpreter<S>, queue: seq<Args>, s: Session<S>)
    requires IgnoresName(run) && !s.multi
    ensures Replayable(queue) ==>
              var r := Replay(run, queue, s.db, s.storage);
              IssueAll(run, queue, s)
              == (if r.None? then Diverges else Done(s.(db := r.value.0, storage := r.value.1), r.value.2))
    decreases |queue|
  {
    hide Apply, Accepted, Do, Dispatch, IgnoresName;
    if queue == [] || !Replayable(queue) {
    } else {
      assert queue[0] in queue;
      assert forall args :: args in queue[1..] ==> args in queue;
      IssueOne(run, queue[0], s);
      DoIsDispatch(run, queue[0], s.db, s.storage);
      var first := Do(run, queue[0], s.db, s.storage);
      if first.Some? {
        ReplayIsIssue(run, queue[1..], s.(db := first.value.0, storage := first.value.1));
      }
    }
  }

  /**
   Transaction replay: EXEC in MULTI mode gives the replies, the final storage and the final
   selected database of issuing the queued commands one by one with MULTI off (and does not
   return if one of them does not). Mode and queue stay as they are, so EXEC can be repeated.
   */
  lemma ExecIsIssueAll<S(!new)>(run: Interpreter<S>, s: Session<S>, args: Args)
    requires IgnoresName(run) && s.multi && Named(args, "EXEC")
    requires Replayable(s.queue)
    ensures var issued := IssueAll(run, s.queue, Session(false, [], s.db, s.storage));
            Apply(run, s, args)
            == (if issued.Diverges? then Diverges
                else Done(Session(true, s.queue, issued.session.db, issued.session.storage), issued.replies))
  {
    ReplayIsIssue(run, s.queue, Session(false, [], s.db, s.storage));
  }

  /**
   The length condition is exact. Given that no queued command is DO, the replies of EXEC are
   those of issuing the queue if and only if every queued command has an argument.
   */
  lemma {:induction false} ReplayExact<S(!new)>(run: Interpreter<S>, queue: seq<Args>, s: Session<S>)
    requires IgnoresName(run) && NeverEmptyCommand(run) && !s.multi
    requires forall args :: args in queue ==> Accepted(args) && !Named(args, "DO")
    ensures Replay(run, queue, s.db, s.storage).Some? && IssueAll(run, queue, s).Done?
    ensures |IssueAll(run, queue, s).replies| == |Replay(run, queue, s.db, s.storage).value.2| == |queue|
    ensures Replay(run, queue, s.db, s.storage).value.2 == IssueAll(run, queue, s).replies
       <==> forall args :: args in queue ==> |args| >= 2
    decreases |queue|
  {
    hide Apply, IgnoresName, NeverEmptyCommand, Validations, Commands;
    if queue == [] {
    } else {
      var args, rest := queue[0], queue[1..];
      assert args in queue;
      assert forall a :: a in queue <==> a == args || a in rest;
      TablesAgree();
      IssueOne(run, args, s);
      HeadReplies(run, args, s.db, s.storage);
      var done := Do(run, args, s.db, s.storage).value;
      var direct := Dispatch(run, args, s.db, s.storage).value;
      var sDone := s.(db := done.0, storage := done.1);
      var sDirect := s.(db := direct.0, storage := direct.1);
      ReplayExact(run, rest, sDone);
      ReplayExact(run, rest, sDirect);
      var a, b := Replay(run, queue, s.db, s.storage).value.2, IssueAll(run, queue, s).replies;
      assert a[0] == done.2 && b[0] == direct.2;
      assert a[1..] == Replay(run, rest, done.0, done.1).value.2;
      assert b[1..] == IssueAll(run, rest, sDirect).replies;
      if |args| >= 2 {
        assert a == b <==> a[1..] == b[1..] by {
          assert a == [a[0]] + a[1..] && b == [b[0]] + b[1..];
        }
      }
    }
  }

  lemma HeadReplies<S(!new)>(run: Interpreter<S>, args: Args, db: byte, storage: S)
    requires IgnoresName(run) && NeverEmptyCommand(run)
    requires Accepted(args) && !Named(args, "DO")
    ensures Do(run, args, db, storage).Some? && Dispatch(run, args, db, storage).Some?
    ensures |args| >= 2 ==> Do(run, args, db, storage) == Dispatch(run, args, db, storage)
    ensures |args| < 2 ==> Do(run, args, db, storage).value.2 != Dispatch(run, args, db, storage).value.2
  {
    hide Validations, Commands, Normalize;
    TablesAgree();
    if |args| >= 2 {
      DoIsDispatch(run, args, db, storage);
    }
  }

  /** The commands the condition is about: only PING and FLUSHALL can come without argument. */
  lemma ShortCommands(args: Args)
    requires Accepted(args)
    ensures |args| < 2 <==> |args| == 1 && (Named(args, "PING") || Named(args, "FLUSHALL"))
  {
  }

  // ----- the queue over whole histories -----

  datatype Event = Call(args: Args) | Clear

  datatype Mode = Mode(multi: bool, queue: seq<Args>)

  function ModeStep(m: Mode, e: Event): Mode {
    match e
    case Clear => Mode(false, [])
    case Call(args) =>
      if Named(args, "MULTI") then m.(multi := true)
      else if Named(args, "DISCARD") then Mode(false, [])
      else if m.multi && Accepted(args) then m.(queue := m.queue + [args])
      else m
  }

  function ModeAfter(h: seq<Event>): Mode
    decreases |h|
  {
    if h == [] then Mode(false, []) else ModeStep(ModeAfter(h[..|h| - 1]), h[|h| - 1])
  }

  /** The mode and queue of a session move by themselves, whatever the commands do. */
  lemma ApplyMovesMode<S>(run: Interpreter<S>, s: Session<S>, args: Args)
    requires Apply(run, s, args).Done?
    ensures var s' := Apply(run, s, args).session;
            Mode(s'.multi, s'.queue) == ModeStep(Mode(s.multi, s.queue), Call(args))
  {
  }

  // The reference: read off the history, without state.

  predicate Resets(e: Event) {
    e.Clear? || Named(e.args, "DISCARD")
  }

  /** The events since the last DISCARD or Clear. */
  function SinceReset(h: seq<Event>): seq<Event>
    decreases |h|
  {
    if h == [] then []
    else if Resets(h[|h| - 1]) then []
    else SinceReset(h[..|h| - 1]) + [h[|h| - 1]]
  }

  predicate IsMulti(e: Event) {
    e.Call? && Named(e.args, "MULTI")
  }

  /** The events after the first MULTI. */
  function AfterMulti(h: seq<Event>): seq<Event> {
    if h == [] then [] else if IsMulti(h[0]) then h[1..] else AfterMulti(h[1..])
  }

  predicate HasMulti(h: seq<Event>) {
    exists i :: 0 <= i < |h| && IsMulti(h[i])
  }

  /** The accepted commands among the events, in order. */
  function AcceptedIn(h: seq<Event>): seq<Args> {
    if h == [] then []
    else (if h[0].Call? && Accepted(h[0].args) then [h[0].args] else []) + AcceptedIn(h[1..])
  }

  lemma {:induction false} AfterMultiSnoc(h: seq<Event>, e: Event)
    ensures AfterMulti(h + [e]) == if HasMulti(h) then AfterMulti(h) + [e] else []
    ensures HasMulti(h + [e]) <==> HasMulti(h) || IsMulti(e)
    decreases |h|
  {
    if h == [] {
      assert (h + [e])[0] == e && (h + [e])[1..] == [];
      assert AfterMulti([]) == [];
    } else {
      assert (h + [e])[1..] == h[1..] + [e];
      AfterMultiSnoc(h[1..], e);
      HasMultiCons(h);
      HasMultiCons(h + [e]);
    }
  }

  lemma HasMultiCons(h: seq<Event>)
    requires h != []
    ensures HasMulti(h) <==> IsMulti(h[0]) || HasMulti(h[1..])
  {
    if i :| 0 <= i < |h| && IsMulti(h[i]) {
      assert i > 0 ==> h[1..][i - 1] == h[i];
    }
    if j :| 0 <= j < |h[1..]| && IsMulti(h[1..][j]) {
      assert h[j + 1] == h[1..][j];
    }
  }

  lemma {:induction false} AcceptedInSnoc(h: seq<Event>, e: Event)
    ensures AcceptedIn(h + [e]) == AcceptedIn(h) + if e.Call? && Accepted(e.args) then [e.args] else []
    decreases |h|
  {
    if h == [] {
      assert (h + [e])[0] == e && (h + [e])[1..] == [];
    } else {
      assert (h + [e])[1..] == h[1..] + [e];
      AcceptedInSnoc(h[1..], e);
    }
  }

  lemma {:induction false} NoMultiNothingAfter(h: seq<Event>)
    requires !HasMulti(h)
    ensures AfterMulti(h) == []
    decreases |h|
  {
    if h == [] {
    } else {
      HasMultiCons(h);
      NoMultiNothingAfter(h[1..]);
    }
  }

  /**
   Over every history of calls and Clears, MULTI is on exactly when a MULTI came since the
   last DISCARD or Clear, and the queue is exactly the accepted commands since that MULTI,
   in order. EXEC plays no part in it.
   */
  lemma {:induction false} QueueIsHistory(h: seq<Event>)
    ensures ModeAfter(h).multi <==> HasMulti(SinceReset(h))
    ensures ModeAfter(h).queue == AcceptedIn(AfterMulti(SinceReset(h)))
    decreases |h|
  {
    hide Accepted, Named;
    if h == [] {
      assert !HasMulti([]);
    } else {
      var before, e := h[..|h| - 1], h[|h| - 1];
      QueueIsHistory(before);
      var since := SinceReset(before);
      if Resets(e) {
        assert !HasMulti([]);
        ResetEmpties(ModeAfter(before), e);
      } else {
        AfterMultiSnoc(since, e);
        AcceptedInSnoc(AfterMulti(since), e);
        StepWithoutReset(ModeAfter(before), e);
        if !HasMulti(since) {
          NoMultiNothingAfter(since);
        }
      }
    }
  }

  lemma ResetEmpties(m: Mode, e: Event)
    requires Resets(e)
    ensures ModeStep(m, e) == Mode(false, [])
  {
  }

  lemma StepWithoutReset(m: Mode, e: Event)
    requires !Resets(e)
    ensures ModeStep(m, e).multi <==> m.multi || IsMulti(e)
    ensures ModeStep(m, e).queue
         == m.queue + if m.multi && e.Call? && Accepted(e.args) then [e.args] else []
  {
  }

  /** So a queue is never left over outside MULTI, and holds only commands that can be run. */
  lemma {:induction false} QueueInvariant(h: seq<Event>)
    ensures ModeAfter(h).queue != [] ==> ModeAfter(h).multi
    ensures forall args :: args in ModeAfter(h).queue ==>
              Accepted(args) && Normalize(args[0]) in Commands()
              && !Named(args, "MULTI") && !Named(args, "EXEC") && !Named(args, "DISCARD")
    decreases |h|
  {
    hide Validations, Commands;
    TablesAgree();
    if h == [] {
    } else {
      QueueInvariant(h[..|h| - 1]);
    }
  }

  /** What is queued was called. */
  lemma {:induction false} QueuedWasCalled(h: seq<Event>)
    ensures forall args :: args in ModeAfter(h).queue ==> Call(args) in h
    decreases |h|
  {
    hide Accepted, Named;
    if h == [] {
    } else {
      assert h == h[..|h| - 1] + [h[|h| - 1]];
      QueuedWasCalled(h[..|h| - 1]);
    }
  }

  /** No call in the history names DO. */
  ghost predicate WithoutDo(h: seq<Event>) {
    forall e :: e in h && e.Call? ==> !Named(e.args, "DO")
  }

  lemma QueueWithoutDo(h: seq<Event>)
    requires WithoutDo(h)
    ensures forall args :: args in ModeAfter(h).queue ==> !Named(args, "DO")
  {
    QueuedWasCalled(h);
  }

  // ----- answers read off the history -----

  /** Selected database, storage and replies after a call. */
  datatype Turn<S> = Turn(db: byte, storage: S, replies: seq<Reply>)

  predicate InMulti(h: seq<Event>) {
    HasMulti(SinceReset(h))
  }

  function Queued(h: seq<Event>): seq<Args> {
    AcceptedIn(AfterMulti(SinceReset(h)))
  }

  /**
   The answer to a call, from what was called on the connection before: no session is kept, and
   the queue that EXEC runs is the one the history calls for. None if the call never returns.
   */
  function Answer<S>(run: Interpreter<S>, h: seq<Event>, args: Args, db: byte, storage: S): Option<Turn<S>> {
    if Named(args, "EXEC") then
      if !InMulti(h) then Some(Turn(db, storage, []))
      else
        var r := Replay(run, Queued(h), db, storage);
        if r.None? then None else Some(Turn(r.value.0, r.value.1, r.value.2))
    else if args != [] && Accepted(args) then
      if InMulti(h) then Some(Turn(db, storage, [QUEUED]))
      else if Named(args, "DO") then None
      else
        var (db', storage', reply) := run(Normalize(args[0]), args, db, storage);
        Some(Turn(db', storage', [reply]))
    else Some(Turn(db, storage, [Unrun(args)]))
  }

  /** The reply to a call that neither runs nor queues anything. */
  function Unrun(args: Args): Reply {
    if args == [] then EMPTY_COMMAND
    else
      var name := Normalize(args[0]);
      if name == "MULTI" || name == "DISCARD" then OK
      else if name in Commands() then WrongArity(name)
      else UnknownCommand(name)
  }

  lemma ExecReplays<S>(run: Interpreter<S>, s: Session<S>, args: Args)
    requires Named(args, "EXEC") && s.multi
    ensures var r := Replay(run, s.queue, s.db, s.storage);
            Apply(run, s, args)
            == if r.None? then Diverges else Done(s.(db := r.value.0, storage := r.value.1), r.value.2)
  {
    hide Validations, Normalize;
  }

  lemma ControlIsNotAccepted(args: Args)
    ensures Named(args, "MULTI") || Named(args, "DISCARD") || Named(args, "EXEC") ==> args != [] && !Accepted(args)
  {
    hide Validations, Normalize;
  }

  /** Reading the answer off the history gives what the session would. */
  lemma AnswerIsApply<S>(run: Interpreter<S>, h: seq<Event>, args: Args, s: Session<S>)
    requires Mode(s.multi, s.queue) == ModeAfter(h)
    ensures match Apply(run, s, args)
            case Diverges => Answer(run, h, args, s.db, s.storage) == None
            case Done(s', replies) => Answer(run, h, args, s.db, s.storage) == Some(Turn(s'.db, s'.storage, replies))
  {
    QueueIsHistory(h);
    NotRun(run, s, args);
    if Accepted(args) && !s.multi {
      if Named(args, "DO") {
        ApplyReturnsUnlessDo(run, s, args);
      } else {
        RunOne(run, args, s);
      }
    }
    if Named(args, "EXEC") && s.multi {
      ExecReplays(run, s, args);
    }
    ControlIsNotAccepted(args);
    hide Apply, Accepted, Validations, Commands, Normalize, ModeAfter, SinceReset, AcceptedIn, AfterMulti, HasMulti;
  }
}
