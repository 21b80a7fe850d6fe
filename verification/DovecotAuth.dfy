/** One connection of the Dovecot auth server: what each input line means, and what is sent. Texts are
    sequences of bytes, written as characters. */
module DovecotAuth {
  import opened GoStrings

  /** What the server calls out to: base64 decoding, and the authenticator, whose answer may depend on
      when (at which line) it is asked. */
  datatype Env = Env(decode: string -> Option<string>, accepts: (nat, string, string) -> bool)

  const TAB := '\t'
  const NUL := '\0'
  const EQUALS := '='

  // ---- one line of the auth phase

  /** What a line asks for: nothing, a refusal with its error text, or a login. A refused line sets the
      session's id when it got that far, and its user name when it named one. */
  datatype Verdict =
    | Silent
    | Refusal(newId: Option<string>, named: Option<string>, error: string)
    | Login(id: string, user: string)

  function ParamName(v: string): string {
    SplitN(v, [EQUALS], 2)[0]
  }

  function ParamValue(v: string): string {
    var d := SplitN(v, [EQUALS], 2);
    if |d| == 1 then "" else d[1]
  }

  function Params(args: seq<string>): map<string, string> {
    if args == [] then map[]
    else
      var v := args[|args| - 1];
      Params(args[..|args| - 1])[ParamName(v) := ParamValue(v)]
  }

  function JudgeCredentials(env: Env, n: nat, id: string, resp: string): Verdict {
    match env.decode(resp)
    case None => Refusal(Some(id), None, "failed to decode resp")
    case Some(auth) =>
      var pair := SplitN(auth, [NUL], 3);
      if |pair| != 3 then Refusal(Some(id), None, "invalid auth resp")
      else if !env.accepts(n, pair[1], pair[2]) then Refusal(Some(id), Some(pair[1]), "invalid username or password")
      else Login(id, pair[1])
  }

  /** The verdict on an AUTH line with at least four arguments. */
  function JudgeAuth(env: Env, n: nat, argv: seq<string>): Verdict
    requires |argv| >= 4
  {
    if argv[1] != "PLAIN" then Refusal(Some(argv[0]), None, "invalid auth type")
    else
      var param := Params(argv[2..]);
      if "service" !in param then Refusal(Some(argv[0]), None, "service not found")
      else if "resp" !in param then Refusal(Some(argv[0]), None, "resp not found")
      else JudgeCredentials(env, n, argv[0], param["resp"])
  }

  /** The verdict on line number n. */
  function Judge(env: Env, n: nat, line: string): Verdict {
    var fields := Split(line, [TAB]);
    if |fields| < 3 then Refusal(None, None, "invalid command: " + line)
    else if fields[0] != "AUTH" then Silent
    else if |fields| < 5 then Refusal(None, None, "invalid arguments")
    else JudgeAuth(env, n, fields[1..])
  }

  // ---- the state the loop carries

  datatype AuthState = AuthState(id: string, username: string, done: bool, data: map<string, string>)

  datatype Reply = Reply(ok: bool, id: string, data: map<string, string>)

  const FRESH := AuthState("", "", false, map[])

  function After(s: AuthState, v: Verdict): AuthState {
    match v
    case Silent => s
    case Refusal(newId, named, error) =>
      s.(id := if newId.Some? then newId.value else s.id,
         username := if named.Some? then named.value else s.username,
         data := s.data["error" := error])
    case Login(id, user) =>
      AuthState(id, user, true, (s.data - {"error"})["user" := user])
  }

  function ReplyTo(s: AuthState, v: Verdict): Option<Reply> {
    if v.Silent? then None else Some(Reply(v.Login?, After(s, v).id, After(s, v).data))
  }

  /** The verdicts on the lines of the auth phase, whose first line has number `first`. */
  function Verdicts(env: Env, first: nat, lines: seq<string>): (vs: seq<Verdict>)
    ensures |vs| == |lines|
    decreases |lines|
  {
    if lines == [] then [] else [Judge(env, first, lines[0])] + Verdicts(env, first + 1, lines[1..])
  }

  lemma {:induction false} VerdictAt(env: Env, first: nat, lines: seq<string>, k: nat, n: nat, line: string)
    requires k < |lines| && n == first + k && line == lines[k]
    ensures Verdicts(env, first, lines)[k] == Judge(env, n, line)
    decreases k
  {
    if k > 0 {
      var tail := lines[1..];
      VerdictAt(env, first + 1, tail, k - 1, n, line);
      assert Verdicts(env, first, lines)[k] == Verdicts(env, first + 1, tail)[k - 1];
    }
  }

  /** The state after the first k verdicts. */
  function StateAt(vs: seq<Verdict>, k: nat): AuthState
    requires k <= |vs|
  {
    if k == 0 then FRESH else After(StateAt(vs, k - 1), vs[k - 1])
  }

  /** What line k is answered. */
  function AnswerAt(vs: seq<Verdict>, k: nat): Option<Reply>
    requires k < |vs|
  {
    ReplyTo(StateAt(vs, k), vs[k])
  }

  /** The replies to the first k lines. */
  function Replies(vs: seq<Verdict>, k: nat): seq<Reply>
    requires k <= |vs|
  {
    if k == 0 then [] else Replies(vs, k - 1) + AsList(AnswerAt(vs, k - 1))
  }

  function AsList(a: Option<Reply>): seq<Reply> {
    if a.Some? then [a.value] else []
  }

  // ---- the handshake

  datatype Handshake = Refused | Unfinished | Finished(at: nat, cpid: string)

  function HandshakeFrom(lines: seq<string>, i: nat): (h: Handshake)
    requires i <= |lines|
    ensures h.Finished? ==> i <= h.at < |lines|
    decreases |lines| - i
  {
    if i == |lines| then Unfinished
    else
      var tokens := Split(lines[i], [TAB]);
      if |tokens| < 2 then Refused
      else if tokens[0] == "VERSION" && tokens[1] != "1" then Refused
      else if tokens[0] == "CPID" then Finished(i, tokens[1])
      else HandshakeFrom(lines, i + 1)
  }

  // ---- what is sent

  datatype Identity = Identity(pid: string, cuid: string, cookie: string)

  function Greeting(me: Identity): seq<string> {
    ["VERSION\t1\t1\n", "MECH\tPLAIN\tplaintext\n", "SPID\t" + me.pid + "\n",
     "CUID\t" + me.cuid + "\n", "COOKIE\t" + me.cookie + "\n", "DONE\n"]
  }

  ghost predicate IsOrderOf(order: seq<string>, keys: set<string>) {
    |order| == |keys| && (forall k :: k in keys <==> k in order)
  }

  function Pairs(order: seq<string>, data: map<string, string>): seq<string>
    requires forall k :: k in order ==> k in data
  {
    if order == [] then []
    else
      var k := order[|order| - 1];
      Pairs(order[..|order| - 1], data) + [k + "=" + data[k]]
  }

  /** The line says OK or FAIL, the id, and every entry of the data, in some order. */
  ghost predicate Renders(line: string, r: Reply) {
    exists order: seq<string> ::
      IsOrderOf(order, r.data.Keys) &&
      line == Join([if r.ok then "OK" else "FAIL", r.id] + Pairs(order, r.data), [TAB]) + "\n"
  }

  lemma OrderGrows(order: seq<string>, listed: set<string>, k: string, data: map<string, string>)
    requires IsOrderOf(order, listed) && k !in listed && listed + {k} <= data.Keys
    ensures IsOrderOf(order + [k], listed + {k})
    ensures Pairs(order + [k], data) == Pairs(order, data) + [k + "=" + data[k]]
  {
    var longer := order + [k];
    assert longer[..|longer| - 1] == order;
    assert forall x :: x in longer <==> x in order || x == k;
  }

  lemma AppendGrows(head: seq<string>, resp: seq<string>, order: seq<string>, left: set<string>, k: string,
                    data: map<string, string>)
    requires k in left && left <= data.Keys && IsOrderOf(order, data.Keys - left) && resp == head + Pairs(order, data)
    ensures IsOrderOf(order + [k], data.Keys - (left - {k}))
    ensures resp + [k + "=" + data[k]] == head + Pairs(order + [k], data)
  {
    var listed := data.Keys - left;
    OrderGrows(order, listed, k, data);
    assert listed + {k} == data.Keys - (left - {k});
    var pairs, pair := Pairs(order, data), [k + "=" + data[k]];
    assert (head + pairs) + pair == head + (pairs + pair);
  }

  lemma RenderedBy(order: seq<string>, r: Reply, resp: seq<string>)
    requires IsOrderOf(order, r.data.Keys)
    requires resp == [if r.ok then "OK" else "FAIL", r.id] + Pairs(order, r.data)
    ensures Renders(Join(resp, [TAB]) + "\n", r)
  {
  }

  ghost predicate Said(lines: seq<string>, a: Option<Reply>) {
    if a.None? then lines == [] else |lines| == 1 && Renders(lines[0], a.value)
  }

  /** Line by line, the lines render the replies. */
  ghost predicate RendersAll(lines: seq<string>, replies: seq<Reply>) {
    if lines == [] then replies == []
    else replies != [] && Renders(lines[|lines| - 1], replies[|replies| - 1]) &&
         RendersAll(lines[..|lines| - 1], replies[..|replies| - 1])
  }

  datatype Ending = InvalidCommand | HandshakeFailed | ReadError | SendFailed | Served

  /** How a connection ends, and what has been sent by then. */
  ghost predicate Concluded(env: Env, me: Identity, writable: nat -> bool, lines: seq<string>, readErr: bool,
                            r: Ending, sent: seq<string>)
  {
    var h := HandshakeFrom(lines, 0);
    if h.Refused? then r == InvalidCommand && sent == []
    else if readErr then r == ReadError && sent == []
    else if h.Unfinished? then r == HandshakeFailed && sent == []
    else if forall i: nat :: i < 6 ==> writable(i)
    then r == Served && |sent| >= 6 && sent[..6] == Greeting(me) &&
         RendersAll(sent[6..], Replies(Verdicts(env, h.at + 1, lines[h.at + 1..]), |lines| - h.at - 1))
    else r == SendFailed && 0 < |sent| <= 6 && sent == Greeting(me)[..|sent|] && !writable(|sent| - 1)
  }

  /** The session object. `sent` lists the lines written to the socket, whether or not the write
      succeeded; write number i succeeds when `writable(i)`. */
  class Session {
    const me: Identity
    const writable: nat -> bool
    var cpid: string
    var handshakeOk: bool
    var id: string
    var username: string
    var done: bool
    var sent: seq<string>

    constructor (me: Identity, writable: nat -> bool)
      ensures this.me == me && this.writable == writable && sent == []
      ensures !handshakeOk && id == "" && username == "" && !done
    {
      this.me, this.writable := me, writable;
      cpid, handshakeOk, id, username, done, sent := "", false, "", "", false, [];
    }

    method SendLine(argv: seq<string>) returns (ok: bool)
      modifies this`sent
      ensures sent == old(sent) + [Join(argv, [TAB]) + "\n"]
      ensures ok == writable(|old(sent)|)
    {
      ok := writable(|sent|);
      sent := sent + [Join(argv, [TAB]) + "\n"];
    }

    method SendData(success: bool, data: map<string, string>) returns (ghost said: seq<string>)
      modifies this`sent
      ensures sent == old(sent) + said && Said(said, Some(Reply(success, id, data)))
    {
      var head := [if success then "OK" else "FAIL", id];
      var resp := AppendData(head, data);
      ghost var order :| IsOrderOf(order, data.Keys) && resp == head + Pairs(order, data);
      RenderedBy(order, Reply(success, id, data), resp);
      var ok := SendLine(resp);
      said := [Join(resp, [TAB]) + "\n"];
    }

    /** The data is a map, so its entries come in whatever order the iteration takes. */
    static method AppendData(head: seq<string>, data: map<string, string>)
      returns (resp: seq<string>)
      ensures exists order :: IsOrderOf(order, data.Keys) && resp == head + Pairs(order, data)
    {
      resp := head;
      var keys := data.Keys;
      ghost var order: seq<string> := [];
      while keys != {}
        invariant keys <= data.Keys && IsOrderOf(order, data.Keys - keys) && resp == head + Pairs(order, data)
        decreases |keys|
      {
        var k :| k in keys;
        AppendGrows(head, resp, order, keys, k, data);
        resp := resp + [k + "=" + data[k]];
        order := order + [k];
        keys := keys - {k};
      }
    }

    /** Phase one: read up to the first CPID line. Returns how many lines were read. */
    method AwaitHandshake(lines: seq<string>) returns (refused: bool, read: nat)
      requires !handshakeOk
      modifies this`cpid, this`handshakeOk
      ensures read <= |lines|
      ensures var h := HandshakeFrom(lines, 0);
              refused == h.Refused? && handshakeOk == h.Finished? &&
              (h.Finished? ==> read == h.at + 1 && cpid == h.cpid)
    {
      read := 0;
      while read < |lines|
        invariant read <= |lines| && !handshakeOk
        invariant HandshakeFrom(lines, 0) == HandshakeFrom(lines, read)
      {
        var tokens := Split(lines[read], [TAB]);
        if |tokens| < 2 {
          return true, read + 1;
        }
        var cmd, argv := tokens[0], tokens[1..];
        read := read + 1;
        match cmd {
          case "VERSION" =>
            if argv[0] != "1" {
              return true, read;
            }
          case "CPID" =>
            cpid := argv[0];
            handshakeOk := true;
          case _ =>
        }
        if handshakeOk {
          return false, read;
        }
      }
      return false, read;
    }

    /** Phase two: the six lines of the server's side, up to the first that cannot be written. */
    method Greet() returns (ok: bool)
      modifies this`sent
      ensures var g := Greeting(me);
              ok == (forall i: nat :: |old(sent)| <= i < |old(sent)| + 6 ==> writable(i)) &&
              (ok ==> sent == old(sent) + g) &&
              (!ok ==> |old(sent)| < |sent| <= |old(sent)| + 6 && sent == old(sent) + g[..|sent| - |old(sent)|] &&
                       !writable(|sent| - 1))
    {
      ghost var g := Greeting(me);
      ok := true;
      var lines := [["VERSION", "1", "1"], ["MECH", "PLAIN", "plaintext"], ["SPID", me.pid],
                    ["CUID", me.cuid], ["COOKIE", me.cookie], ["DONE"]];
      GreetingLines(me);
      for i := 0 to |lines|
        invariant sent == old(sent) + g[..i]
        invariant forall j: nat :: |old(sent)| <= j < |old(sent)| + i ==> writable(j)
      {
        ok := SendLine(lines[i]);
        assert g[..i + 1] == g[..i] + [g[i]];
        if !ok {
          return false;
        }
      }
      assert g[..6] == g;
    }

    static method ReadParams(args: seq<string>) returns (param: map<string, string>)
      ensures param == Params(args)
    {
      param := map[];
      for i := 0 to |args|
        invariant param == Params(args[..i])
      {
        var d := SplitN(args[i], [EQUALS], 2);
        ghost var longer := args[..i + 1];
        assert longer[..|longer| - 1] == args[..i];
        if |d| == 1 {
          param := param[d[0] := ""];
        } else {
          param := param[d[0] := d[1]];
        }
      }
      assert args[..|args|] == args;
    }

    ghost function State(data: map<string, string>): AuthState
      reads this
    {
      AuthState(id, username, done, data)
    }

    method Refuse(data: map<string, string>, error: string)
      returns (data': map<string, string>, ghost said: seq<string>)
      modifies this`sent
      ensures var s, v := State(data), Refusal(None, None, error);
              State(data') == After(s, v) && sent == old(sent) + said && Said(said, ReplyTo(s, v))
    {
      data' := data["error" := error];
      said := SendData(false, data');
    }

    /** Decode and check the credentials of one line, and answer. `said` are the lines sent. */
    method Authenticate(env: Env, n: nat, resp: string, data: map<string, string>)
      returns (data': map<string, string>, ghost said: seq<string>)
      modifies this`username, this`done, this`sent
      ensures var s, v := old(State(data)), JudgeCredentials(env, n, id, resp);
              State(data') == After(s, v) && sent == old(sent) + said && Said(said, ReplyTo(s, v))
    {
      var auth := env.decode(resp);
      if auth.None? {
        data', said := Refuse(data, "failed to decode resp");
        return;
      }
      var pair := SplitN(auth.value, [NUL], 3);
      if |pair| != 3 {
        data', said := Refuse(data, "invalid auth resp");
        return;
      }
      username := pair[1];
      var password := pair[2];
      if !env.accepts(n, username, password) {
        data', said := Refuse(data, "invalid username or password");
        return;
      }
      done := true;
      data' := data - {"error"};
      data' := data'["user" := username];
      said := SendData(true, data');
    }

    /** The checks on the arguments of an AUTH line: None goes with the error text of a refusal. */
    static method CheckArguments(argv: seq<string>, ghost env: Env, ghost n: nat)
      returns (resp: Option<string>, error: string)
      requires |argv| >= 4
      ensures JudgeAuth(env, n, argv) ==
              match resp
              case None => Refusal(Some(argv[0]), None, error)
              case Some(text) => JudgeCredentials(env, n, argv[0], text)
    {
      if argv[1] != "PLAIN" {
        return None, "invalid auth type";
      }
      var param := ReadParams(argv[2..]);
      if "service" !in param {
        return None, "service not found";
      }
      if "resp" !in param {
        return None, "resp not found";
      }
      return Some(param["resp"]), "";
    }

    /** An AUTH line with enough arguments. */
    method HandleAuth(env: Env, n: nat, argv: seq<string>, ghost v: Verdict, data: map<string, string>)
      returns (data': map<string, string>, ghost said: seq<string>)
      requires |argv| >= 4 && v == JudgeAuth(env, n, argv)
      modifies this`id, this`username, this`done, this`sent
      ensures var s := old(State(data));
              State(data') == After(s, v) && sent == old(sent) + said && Said(said, ReplyTo(s, v))
    {
      id := argv[0];
      var resp, error := CheckArguments(argv, env, n);
      if resp.None? {
        data', said := Refuse(data, error);
      } else {
        data', said := Authenticate(env, n, resp.value, data);
      }
    }

    /** One turn of the auth loop. */
    method HandleLine(env: Env, n: nat, line: string, ghost v: Verdict, data: map<string, string>)
      returns (data': map<string, string>, ghost said: seq<string>)
      requires v == Judge(env, n, line)
      modifies this`id, this`username, this`done, this`sent
      ensures var s := old(State(data));
              State(data') == After(s, v) && sent == old(sent) + said && Said(said, ReplyTo(s, v))
    {
      var fields := Split(line, [TAB]);
      if |fields| < 3 {
        data', said := Refuse(data, "invalid command: " + line);
        return;
      }
      var cmd, argv := fields[0], fields[1..];
      if cmd != "AUTH" {
        return data, [];
      }
      if |argv| < 4 {
        data', said := Refuse(data, "invalid arguments");
        return;
      }
      data', said := HandleAuth(env, n, argv, v, data);
    }

    /** The same, as turn k of the loop, which began when n0 lines were sent. */
    method Turn(env: Env, n: nat, line: string, ghost vs: seq<Verdict>, ghost k: nat, ghost n0: nat,
                data: map<string, string>)
      returns (data': map<string, string>)
      requires k < |vs| && vs[k] == Judge(env, n, line) && n0 <= |sent|
      requires State(data) == StateAt(vs, k) && RendersAll(sent[n0..], Replies(vs, k))
      modifies this`id, this`username, this`done, this`sent
      ensures State(data') == StateAt(vs, k + 1)
      ensures old(sent) <= sent && RendersAll(sent[n0..], Replies(vs, k + 1))
    {
      ghost var before, more := sent[n0..], [];
      ghost var v := vs[k];
      data', more := HandleLine(env, n, line, v, data);
      Extends(old(sent), sent, n0, more);
      TurnKeeps(vs, k, State(data'), before, more);
    }

    /** Phase three, over all remaining lines. */
    method AuthLoop(env: Env, first: nat, lines: seq<string>)
      requires State(map[]) == FRESH
      modifies this`id, this`username, this`done, this`sent
      ensures old(sent) <= sent
      ensures RendersAll(sent[|old(sent)|..], Replies(Verdicts(env, first, lines), |lines|))
    {
      ghost var vs, n0 := Verdicts(env, first, lines), |sent|;
      var data: map<string, string> := map[];
      for k := 0 to |lines|
        invariant State(data) == StateAt(vs, k)
        invariant old(sent) <= sent && RendersAll(sent[n0..], Replies(vs, k))
      {
        VerdictAt(env, first, lines, k, first + k, lines[k]);
        data := Turn(env, first + k, lines[k], vs, k, n0, data);
      }
    }

    /** The two later phases, after a handshake that ended with line `read - 1`. */
    method Serve(env: Env, lines: seq<string>, read: nat) returns (r: Ending)
      requires State(map[]) == FRESH && sent == [] && read <= |lines|
      modifies this`id, this`username, this`done, this`sent
      ensures if forall i: nat :: i < 6 ==> writable(i)
              then r == Served && |sent| >= 6 && sent[..6] == Greeting(me) &&
                   RendersAll(sent[6..], Replies(Verdicts(env, read, lines[read..]), |lines| - read))
              else r == SendFailed && 0 < |sent| <= 6 && sent == Greeting(me)[..|sent|] && !writable(|sent| - 1)
    {
      var ok := Greet();
      if !ok {
        return SendFailed;
      }
      ghost var g := sent;
      AuthLoop(env, read, lines[read..]);
      assert sent[..6] == g;
      return Served;
    }

    /** The whole connection: `lines` is what the scanner yields, `readErr` whether it has met a read error
        by the end of the handshake loop, which can be before it has yielded its last lines. */
    method Handle(env: Env, lines: seq<string>, readErr: bool) returns (r: Ending)
      requires State(map[]) == FRESH && !handshakeOk && sent == []
      modifies this
      ensures Concluded(env, me, writable, lines, readErr, r, sent)
    {
      var refused, read := AwaitHandshake(lines);
      if refused {
        return InvalidCommand;
      }
      if readErr {
        return ReadError;
      }
      if !handshakeOk {
        return HandshakeFailed;
      }
      r := Serve(env, lines, read);
    }
  }

  lemma RendersAppend(lines: seq<string>, replies: seq<Reply>, said: seq<string>, a: Option<Reply>)
    requires RendersAll(lines, replies) && Said(said, a)
    ensures RendersAll(lines + said, replies + AsList(a))
  {
    var all, allReplies := lines + said, replies + AsList(a);
    if a.None? {
      assert all == lines && allReplies == replies;
    } else {
      assert all[..|all| - 1] == lines && allReplies[..|allReplies| - 1] == replies;
    }
  }

  lemma Extends(a: seq<string>, b: seq<string>, n: nat, more: seq<string>)
    requires b == a + more && n <= |a|
    ensures a <= b && b[n..] == a[n..] + more
  {
  }

  lemma TurnKeeps(vs: seq<Verdict>, k: nat, s: AuthState, before: seq<string>, more: seq<string>)
    requires k < |vs| && RendersAll(before, Replies(vs, k))
    requires s == After(StateAt(vs, k), vs[k]) && Said(more, ReplyTo(StateAt(vs, k), vs[k]))
    ensures s == StateAt(vs, k + 1) && RendersAll(before + more, Replies(vs, k + 1))
  {
    RendersAppend(before, Replies(vs, k), more, AnswerAt(vs, k));
  }

  lemma {:induction false} RendersEach(lines: seq<string>, replies: seq<Reply>)
    requires RendersAll(lines, replies)
    ensures |lines| == |replies| && forall i :: 0 <= i < |lines| ==> Renders(lines[i], replies[i])
    decreases |lines|
  {
    if lines != [] {
      var front, frontReplies := lines[..|lines| - 1], replies[..|replies| - 1];
      RendersEach(front, frontReplies);
      forall i | 0 <= i < |lines| ensures Renders(lines[i], replies[i]) {
        if i < |front| { assert lines[i] == front[i] && replies[i] == frontReplies[i]; }
      }
    }
  }

  lemma GreetingLines(me: Identity)
    ensures var lines := [["VERSION", "1", "1"], ["MECH", "PLAIN", "plaintext"], ["SPID", me.pid],
                          ["CUID", me.cuid], ["COOKIE", me.cookie], ["DONE"]];
            forall i :: 0 <= i < 6 ==> Join(lines[i], [TAB]) + "\n" == Greeting(me)[i]
  {
    JoinThree("VERSION", "1", "1");
    JoinThree("MECH", "PLAIN", "plaintext");
    JoinTwo("SPID", me.pid);
    JoinTwo("CUID", me.cuid);
    JoinTwo("COOKIE", me.cookie);
    assert [TAB] == "\t";
  }

  lemma JoinTwo(a: string, b: string)
    ensures Join([a, b], [TAB]) == a + "\t" + b
  {
    assert [a, b][1..] == [b];
  }

  lemma JoinThree(a: string, b: string, c: string)
    ensures Join([a, b, c], [TAB]) == a + "\t" + b + "\t" + c
  {
    assert [a, b, c][1..] == [b, c];
    JoinTwo(b, c);
    assert a + "\t" + (b + "\t" + c) == a + "\t" + b + "\t" + c;
  }
}
