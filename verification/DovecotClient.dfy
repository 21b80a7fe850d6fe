/** The Dovecot auth server as its client sees it: what replies give when they are cut apart, and a whole
    connection told from its input lines. */
module DovecotClient {
  import opened GoStrings
  import opened DovecotAuth
  import opened DovecotRuns

  // ---- what a client reads back

  /** The line of a reply without its newline, cut at its tabs, gives the verdict, the id and, read as
      parameters, the data. */
  ghost predicate ReadsBack(line: string, r: Reply) {
    line != "" &&
    var f := Split(line[..|line| - 1], [TAB]);
    |f| >= 2 && f[0] == (if r.ok then "OK" else "FAIL") && f[1] == r.id && Params(f[2..]) == r.data
  }

  /** The reply holds no tab, and no key an equals sign. */
  ghost predicate Cuttable(r: Reply) {
    TAB !in r.id && forall k :: k in r.data ==> TAB !in k && EQUALS !in k && TAB !in r.data[k]
  }

  lemma ParamPartsFree(v: string)
    requires TAB !in v
    ensures TAB !in ParamName(v) && EQUALS !in ParamName(v) && TAB !in ParamValue(v)
  {
    var i := Index(v, [EQUALS]);
    SplitAtIndex(v, EQUALS);
    if i != -1 {
      assert SplitN(v[i + 1..], [EQUALS], 1) == [v[i + 1..]];
      assert SplitN(v, [EQUALS], 2) == [v[..i], v[i + 1..]];
    } else {
      assert SplitN(v, [EQUALS], 2) == [v];
    }
  }

  lemma {:induction false} ParamsFree(args: seq<string>)
    requires TabFree(args)
    ensures forall k :: k in Params(args) ==> TAB !in k && EQUALS !in k && TAB !in Params(args)[k]
    decreases |args|
  {
    if args != [] {
      var front := args[..|args| - 1];
      assert TabFree(front) by { assert forall i :: 0 <= i < |front| ==> front[i] == args[i]; }
      ParamsFree(front);
      ParamPartsFree(args[|args| - 1]);
    }
  }

  lemma {:induction false} PairsReadBack(order: seq<string>, data: map<string, string>)
    requires forall k :: k in order ==> k in data && EQUALS !in k
    ensures Params(Pairs(order, data)) == map k | k in order :: data[k]
    decreases |order|
  {
    if order != [] {
      var front, k := order[..|order| - 1], order[|order| - 1];
      var pairs, pair := Pairs(front, data), k + "=" + data[k];
      assert order == front + [k];
      PairsReadBack(front, data);
      assert Pairs(order, data) == pairs + [pair];
      assert (pairs + [pair])[..|pairs|] == pairs;
      assert [EQUALS] == "=";
      AssignsExactly(pair, k, data[k]);
    }
  }

  lemma {:induction false} PairsTabFree(order: seq<string>, data: map<string, string>)
    requires forall k :: k in order ==> k in data && TAB !in k && TAB !in data[k]
    ensures TabFree(Pairs(order, data))
    decreases |order|
  {
    if order != [] {
      PairsTabFree(order[..|order| - 1], data);
      assert order[|order| - 1] in order;
    }
  }

  lemma CuttableReadsBack(order: seq<string>, r: Reply, line: string)
    requires IsOrderOf(order, r.data.Keys) && Cuttable(r)
    requires line == Join([if r.ok then "OK" else "FAIL", r.id] + Pairs(order, r.data), [TAB]) + "\n"
    ensures ReadsBack(line, r)
  {
    var head, pairs := [if r.ok then "OK" else "FAIL", r.id], Pairs(order, r.data);
    var parts := head + pairs;
    PairsTabFree(order, r.data);
    PairsReadBack(order, r.data);
    forall i | 0 <= i < |parts| ensures TAB !in parts[i] {
      if i >= 2 { assert parts[i] == pairs[i - 2]; }
    }
    SplitJoinOne(parts, TAB);
    assert line[..|line| - 1] == Join(parts, [TAB]);
    assert parts[2..] == pairs;
    assert (map k | k in order :: r.data[k]) == r.data;
  }

  /** A client that cuts a reply's line at its tabs gets verdict, id and data back exactly when none of them
      holds a tab, and no key an equals sign, which the keys in use never do. */
  lemma ReplyReadsBackExactly(line: string, r: Reply)
    requires Renders(line, r)
    ensures ReadsBack(line, r) <==> Cuttable(r)
  {
    if Cuttable(r) {
      var order :| IsOrderOf(order, r.data.Keys) &&
        line == Join([if r.ok then "OK" else "FAIL", r.id] + Pairs(order, r.data), [TAB]) + "\n";
      CuttableReadsBack(order, r, line);
    }
    if ReadsBack(line, r) {
      var body := line[..|line| - 1];
      var f := Split(body, [TAB]);
      SplitPartsFree(body, TAB);
      assert TAB !in f[1];
      assert TabFree(f[2..]) by { assert forall i :: 0 <= i < |f[2..]| ==> f[2..][i] == f[i + 2]; }
      ParamsFree(f[2..]);
    }
  }

  /** A reply that does not read back: a line of two fields is quoted in its error, tab and all. */
  lemma TabbedCommand(env: Env, n: nat, reply: string)
    ensures Judge(env, n, "a\tb") == Refusal(None, None, "invalid command: a\tb")
    ensures var r := Reply(false, "", map["error" := "invalid command: a\tb"]);
            ReplyTo(FRESH, Judge(env, n, "a\tb")) == Some(r) && (Renders(reply, r) ==> !ReadsBack(reply, r))
  {
    var line, fields, error := "a\tb", ["a", "b"], "invalid command: a\tb";
    assert fields[1..] == ["b"] && [TAB] == "\t";
    assert Join(fields, [TAB]) == line;
    assert Fields(line, fields);
    FieldsExactly(line, fields);
    assert "invalid command: " + line == error;
    var r := Reply(false, "", map["error" := error]);
    assert error[18] == TAB;
    if Renders(reply, r) {
      ReplyReadsBackExactly(reply, r);
      assert "error" in r.data && TAB in r.data["error"];
    }
  }

  lemma {:induction false} StreamIsTerminated(sent: seq<string>, bodies: seq<string>)
    requires |sent| == |bodies| && forall i :: 0 <= i < |sent| ==> sent[i] == bodies[i] + "\n"
    ensures Flatten(sent) == Terminated(bodies, '\n')
  {
    if sent != [] {
      StreamIsTerminated(sent[1..], bodies[1..]);
      assert ['\n'] == "\n";
    }
  }

  /** A client that cuts the stream of lines at its newlines gets the lines back exactly when none holds
      another newline. */
  lemma StreamReadsBackExactly(sent: seq<string>, bodies: seq<string>)
    requires |sent| == |bodies| && forall i :: 0 <= i < |sent| ==> sent[i] == bodies[i] + "\n"
    ensures Split(Flatten(sent), ['\n']) == bodies + [""] <==> forall i :: 0 <= i < |bodies| ==> '\n' !in bodies[i]
  {
    var parts := bodies + [""];
    StreamIsTerminated(sent, bodies);
    if bodies == [] {
      assert parts == [""];
    } else {
      TerminatedIsJoin(bodies, '\n');
      JoinEmptyEnd(bodies, '\n');
    }
    assert Flatten(sent) == Join(parts, ['\n']);
    SplitJoinOne(parts, '\n');
    assert forall i :: 0 <= i < |bodies| ==> parts[i] == bodies[i];
    if forall i :: 0 <= i < |bodies| ==> '\n' !in bodies[i] {
      forall i | 0 <= i < |parts| ensures '\n' !in parts[i] {
        assert parts[i] == if i < |bodies| then bodies[i] else "";
      }
    }
  }

  lemma {:induction false} JoinEmptyEnd(parts: seq<string>, c: char)
    requires parts != []
    ensures Join(parts + [""], [c]) == Join(parts, [c]) + [c]
  {
    var all := parts + [""];
    var rest := parts[1..];
    assert all[0] == parts[0] && all[1..] == rest + [""];
    if rest == [] {
      assert all[1..] == [""];
      assert Join(all[1..], [c]) == "";
      assert parts[0] + [c] + "" == parts[0] + [c];
    } else {
      JoinEmptyEnd(rest, c);
      Regroup(parts[0] + [c], Join(rest, [c]), [c]);
    }
  }

  // ---- the whole connection, on its input lines

  /** The greeting's place: a CPID line with only passing lines before it. */
  ghost predicate Opens(fields: seq<seq<string>>, at: nat) {
    at < |fields| && |fields[at]| >= 2 && fields[at][0] == "CPID" && AllPassing(fields, 0, at)
  }

  ghost predicate FieldsOfAll(lines: seq<string>, fields: seq<seq<string>>) {
    |fields| == |lines| && forall j :: 0 <= j < |lines| ==> Fields(lines[j], fields[j])
  }

  lemma OpensExactly(lines: seq<string>, fields: seq<seq<string>>, at: nat)
    requires FieldsOfAll(lines, fields)
    ensures Opens(fields, at) <==> HandshakeFrom(lines, 0).Finished? && HandshakeFrom(lines, 0).at == at
  {
    var h := HandshakeFrom(lines, 0);
    if h.Finished? {
      HandshakeExactly(lines, fields, 0, h.at, h.cpid);
    }
    if Opens(fields, at) {
      HandshakeExactly(lines, fields, 0, at, fields[at][1]);
    }
  }

  /** Something is sent, and the greeting first, exactly when the lines open and no read error came before. */
  lemma GreetedExactly(env: Env, me: Identity, writable: nat -> bool, lines: seq<string>,
                       fields: seq<seq<string>>, readErr: bool, r: Ending, sent: seq<string>)
    requires Concluded(env, me, writable, lines, readErr, r, sent) && FieldsOfAll(lines, fields)
    ensures sent != [] <==> !readErr && exists at :: Opens(fields, at)
    ensures sent == [] || (|sent| <= 6 && sent == Greeting(me)[..|sent|]) || (|sent| > 6 && sent[..6] == Greeting(me))
    ensures r == Served <==> sent != [] && forall i: nat :: i < 6 ==> writable(i)
  {
    var h := HandshakeFrom(lines, 0);
    if h.Finished? {
      OpensExactly(lines, fields, h.at);
    }
    if at :| Opens(fields, at) {
      OpensExactly(lines, fields, at);
    }
  }

  /** What each line says of itself, by its number: the id it sets, the id and user it logs in, whether the
      server is silent to it, and the error it is refused with. */
  datatype Sayings = Sayings(sets: (nat, string) -> bool, logsIn: (nat, string, string) -> bool,
                             silent: nat -> bool, fails: (nat, string) -> bool)

  ghost function Says(env: Env, lines: seq<string>): Sayings {
    Sayings((n: nat, id: string) => n < |lines| && SetsId(lines[n], id),
            (n: nat, id: string, user: string) => n < |lines| && IsLogin(env, n, lines[n], id, user),
            (n: nat) => n < |lines| && Unanswered(lines[n]),
            (n: nat, error: string) => n < |lines| && Fails(env, n, lines[n], error))
  }

  ghost predicate SetsSome(y: Sayings, n: nat) {
    exists id :: y.sets(n, id)
  }

  ghost predicate LogsInAs(y: Sayings, n: nat, user: string) {
    exists id :: y.logsIn(n, id, user)
  }

  ghost predicate LogsSomeIn(y: Sayings, n: nat) {
    exists user :: LogsInAs(y, n, user)
  }

  /** The id of the latest of these lines that sets one, or nothing. */
  ghost predicate LatestIdIn(y: Sayings, from: nat, to: nat, id: string) {
    (exists j: nat :: from <= j < to && y.sets(j, id) && forall i: nat :: j < i < to ==> !SetsSome(y, i)) ||
    (id == "" && forall i: nat :: from <= i < to ==> !SetsSome(y, i))
  }

  /** The user of the latest login among these lines. */
  ghost predicate LatestUserIn(y: Sayings, from: nat, to: nat, user: string) {
    exists j: nat :: from <= j < to && LogsInAs(y, j, user) && forall i: nat :: j < i < to ==> !LogsSomeIn(y, i)
  }

  /** An OK to line n says just the user of that line. */
  ghost predicate OkFits(y: Sayings, n: nat, r: Reply) {
    exists user :: y.logsIn(n, r.id, user) && r.data == map["user" := user]
  }

  /** A FAIL to line n says the error of that line, and the user of the latest login before it, if any. */
  ghost predicate FailFits(y: Sayings, from: nat, n: nat, r: Reply) {
    "error" in r.data && y.fails(n, r.data["error"]) && r.data.Keys <= {"error", "user"} &&
    ("user" in r.data <==> exists j: nat :: from <= j < n && LogsSomeIn(y, j)) &&
    ("user" in r.data ==> LatestUserIn(y, from, n, r.data["user"]))
  }

  /** What the reply to line n says, told from what the lines since `from` say. */
  ghost predicate ReplyFits(y: Sayings, from: nat, n: nat, r: Reply) {
    (r.ok <==> LogsSomeIn(y, n)) && LatestIdIn(y, from, n + 1, r.id) &&
    if r.ok then OkFits(y, n, r) else FailFits(y, from, n, r)
  }

  /** Line number `place` of the transcript is the reply to line n. */
  ghost predicate RepliedAt(said: seq<string>, place: nat, y: Sayings, from: nat, n: nat) {
    place < |said| && exists r :: Renders(said[place], r) && ReplyFits(y, from, n, r)
  }

  /** How many of these lines are answered. */
  ghost function AnsweredIn(y: Sayings, from: nat, to: nat): nat {
    if to <= from then 0 else AnsweredIn(y, from, to - 1) + if y.silent(to - 1) then 0 else 1
  }

  /** A verdict says of its line what the line says of itself. */
  ghost predicate Tells(y: Sayings, n: nat, v: Verdict) {
    (match IdOf(v) case Some(id) => y.sets(n, id) case None => !SetsSome(y, n)) &&
    (v.Login? <==> LogsSomeIn(y, n)) && (v.Login? ==> y.logsIn(n, v.id, v.user)) &&
    (v.Silent? <==> y.silent(n)) && (v.Refusal? ==> y.fails(n, v.error))
  }

  ghost predicate TellsAll(y: Sayings, from: nat, vs: seq<Verdict>) {
    forall j :: 0 <= j < |vs| ==> Tells(y, from + j, vs[j])
  }

  lemma JudgeTells(env: Env, lines: seq<string>, n: nat)
    requires n < |lines|
    ensures Tells(Says(env, lines), n, Judge(env, n, lines[n]))
  {
    var v, line, y := Judge(env, n, lines[n]), lines[n], Says(env, lines);
    forall id ensures IdOf(v) == Some(id) <==> y.sets(n, id) { IdExactly(env, n, line, id); }
    IdExactly(env, n, line, "");
    forall id, user ensures v == Login(id, user) <==> y.logsIn(n, id, user) { LoginExactly(env, n, line, id, user); }
    if v.Login? {
      assert y.logsIn(n, v.id, v.user);
      assert LogsInAs(y, n, v.user);
    }
    if v.Refusal? {
      FailsExactly(env, n, line, v.error);
    }
  }

  lemma TailOf(lines: seq<string>, from: nat, rest: seq<string>)
    requires from < |lines| && rest == lines[from..]
    ensures rest[0] == lines[from] && rest[1..] == lines[from + 1..]
  {
  }

  lemma TellsAllCons(y: Sayings, from: nat, v: Verdict, later: seq<Verdict>)
    requires Tells(y, from, v) && TellsAll(y, from + 1, later)
    ensures TellsAll(y, from, [v] + later)
  {
    var vs := [v] + later;
    forall j | 0 <= j < |vs| ensures Tells(y, from + j, vs[j]) {
      if j > 0 {
        assert Tells(y, from + 1 + (j - 1), later[j - 1]);
      }
    }
  }

  /** The verdicts of the auth phase, of which only what they tell of their lines counts from here on. */
  lemma {:induction false} VerdictsTell(env: Env, from: nat, lines: seq<string>, rest: seq<string>)
    requires from <= |lines| && rest == lines[from..]
    ensures TellsAll(Says(env, lines), from, Verdicts(env, from, rest))
    decreases |rest|
  {
    if from < |lines| {
      TailOf(lines, from, rest);
      VerdictsTell(env, from + 1, lines, rest[1..]);
      JudgeTells(env, lines, from);
      TellsAllCons(Says(env, lines), from, Judge(env, from, lines[from]), Verdicts(env, from + 1, rest[1..]));
    }
  }

  lemma LatestIdTold(y: Sayings, from: nat, vs: seq<Verdict>, k: nat, id: string)
    requires TellsAll(y, from, vs) && k <= |vs| && LatestId(vs, k, id)
    ensures LatestIdIn(y, from, from + k, id)
  {
    forall i: nat | from <= i < from + k ensures IdOf(vs[i - from]) == None ==> !SetsSome(y, i) {
      assert Tells(y, from + (i - from), vs[i - from]);
    }
    if j: nat :| 0 <= j < k && IdOf(vs[j]) == Some(id) && forall i :: j < i < k ==> IdOf(vs[i]) == None {
      assert Tells(y, from + j, vs[j]);
      assert y.sets(from + j, id);
    }
  }

  lemma LatestUserTold(y: Sayings, from: nat, vs: seq<Verdict>, k: nat, user: string)
    requires TellsAll(y, from, vs) && k <= |vs| && LatestUser(vs, k, user)
    ensures LatestUserIn(y, from, from + k, user)
  {
    var j :| 0 <= j < k && vs[j].Login? && vs[j].user == user && forall i :: j < i < k ==> !vs[i].Login?;
    assert Tells(y, from + j, vs[j]);
    assert LogsInAs(y, from + j, user);
    forall i: nat | from + j < i < from + k ensures !LogsSomeIn(y, i) {
      assert Tells(y, from + (i - from), vs[i - from]);
    }
  }

  lemma LoginsTold(y: Sayings, from: nat, vs: seq<Verdict>, k: nat)
    requires TellsAll(y, from, vs) && k <= |vs|
    ensures (exists j :: 0 <= j < k && vs[j].Login?) <==> exists j: nat :: from <= j < from + k && LogsSomeIn(y, j)
  {
    if j: nat :| 0 <= j < k && vs[j].Login? {
      assert Tells(y, from + j, vs[j]);
      assert LogsSomeIn(y, from + j);
    }
    if j: nat :| from <= j < from + k && LogsSomeIn(y, j) {
      assert Tells(y, from + (j - from), vs[j - from]);
      assert vs[j - from].Login?;
    }
  }

  lemma {:induction false} AnsweredTold(y: Sayings, from: nat, vs: seq<Verdict>, k: nat)
    requires TellsAll(y, from, vs) && k <= |vs|
    ensures Answered(vs, k) == AnsweredIn(y, from, from + k)
  {
    if k > 0 {
      AnsweredTold(y, from, vs, k - 1);
      assert Tells(y, from + (k - 1), vs[k - 1]);
    }
  }

  lemma FailTold(y: Sayings, from: nat, vs: seq<Verdict>, k: nat, r: Reply)
    requires TellsAll(y, from, vs) && k < |vs|
    requires "error" in r.data && r.data.Keys <= {"error", "user"}
    requires vs[k].Refusal? && r.data["error"] == vs[k].error
    requires "user" in r.data <==> exists j :: 0 <= j < k && vs[j].Login?
    requires "user" in r.data ==> LatestUser(vs, k, r.data["user"])
    ensures FailFits(y, from, from + k, r)
  {
    assert Tells(y, from + k, vs[k]);
    LoginsTold(y, from, vs, k);
    if "user" in r.data {
      LatestUserTold(y, from, vs, k, r.data["user"]);
    }
  }

  lemma ReplyTold(y: Sayings, from: nat, vs: seq<Verdict>, k: nat)
    requires TellsAll(y, from, vs) && k < |vs| && !vs[k].Silent?
    ensures ReplyFits(y, from, from + k, AnswerAt(vs, k).value)
  {
    var r := AnswerAt(vs, k).value;
    ReplyExactly(vs, k);
    LatestIdTold(y, from, vs, k + 1, r.id);
    assert Tells(y, from + k, vs[k]);
    if !r.ok {
      FailTold(y, from, vs, k, r);
    }
  }

  ghost predicate Placed(vs: seq<Verdict>, said: seq<string>, k: nat)
    requires k < |vs|
  {
    AnswerAt(vs, k).Some? ==> Answered(vs, k) < |said| && Renders(said[Answered(vs, k)], AnswerAt(vs, k).value)
  }

  /** Every answer has its line, in order, and there are no other lines. */
  ghost predicate InPlace(vs: seq<Verdict>, said: seq<string>) {
    |said| == Answered(vs, |vs|) && forall k: nat :: k < |vs| ==> Placed(vs, said, k)
  }

  lemma RenderedInPlace(vs: seq<Verdict>, said: seq<string>)
    requires RendersAll(said, Replies(vs, |vs|))
    ensures InPlace(vs, said)
  {
    RepliesInOrder(vs, |vs|, 0);
    RendersEach(said, Replies(vs, |vs|));
    forall k: nat | k < |vs| ensures Placed(vs, said, k) { TranscriptOf(vs, said, k); }
  }

  lemma TranscriptTold(y: Sayings, from: nat, vs: seq<Verdict>, said: seq<string>, k: nat)
    requires TellsAll(y, from, vs) && k < |vs| && Placed(vs, said, k) && !y.silent(from + k)
    ensures RepliedAt(said, AnsweredIn(y, from, from + k), y, from, from + k)
  {
    AnsweredTold(y, from, vs, k);
    assert Tells(y, from + k, vs[k]);
    ReplyTold(y, from, vs, k);
  }

  lemma BehindGreeting(said: seq<string>, sent: seq<string>, place: nat, y: Sayings, from: nat, n: nat)
    requires |sent| >= 6 && said == sent[6..] && RepliedAt(said, place, y, from, n)
    ensures RepliedAt(sent, 6 + place, y, from, n)
  {
    assert sent[6 + place] == said[place];
  }

  /** What is sent begins with these six lines. */
  ghost predicate Greets(me: Identity, sent: seq<string>) {
    |sent| >= 6 &&
    sent[..6] == ["VERSION\t1\t1\n", "MECH\tPLAIN\tplaintext\n", "SPID\t" + me.pid + "\n",
                  "CUID\t" + me.cuid + "\n", "COOKIE\t" + me.cookie + "\n", "DONE\n"]
  }

  /** Behind the greeting comes for each line from `from` to `end` that is answered its reply, in place, and
      nothing else. */
  ghost predicate RepliesIn(sent: seq<string>, y: Sayings, from: nat, end: nat) {
    |sent| == 6 + AnsweredIn(y, from, end) &&
    forall n: nat :: from <= n < end && !y.silent(n) ==> RepliedAt(sent, 6 + AnsweredIn(y, from, n), y, from, n)
  }

  /** All of what is sent on a served connection whose auth phase is the lines from `from` to `end`: the
      greeting, and for each line that is answered its reply, in place. */
  ghost predicate Transcribes(me: Identity, sent: seq<string>, y: Sayings, from: nat, end: nat) {
    Greets(me, sent) && RepliesIn(sent, y, from, end)
  }

  lemma LineServed(y: Sayings, vs: seq<Verdict>, said: seq<string>, sent: seq<string>, from: nat, k: nat)
    requires TellsAll(y, from, vs) && k < |vs| && Placed(vs, said, k) && !y.silent(from + k)
    requires |sent| >= 6 && said == sent[6..]
    ensures RepliedAt(sent, 6 + AnsweredIn(y, from, from + k), y, from, from + k)
  {
    TranscriptTold(y, from, vs, said, k);
    BehindGreeting(said, sent, AnsweredIn(y, from, from + k), y, from, from + k);
  }

  lemma OneServed(y: Sayings, vs: seq<Verdict>, said: seq<string>, sent: seq<string>, from: nat, n: nat)
    requires from <= n < from + |vs| && !y.silent(n) && |sent| >= 6 && said == sent[6..]
    requires TellsAll(y, from, vs) && InPlace(vs, said)
    ensures RepliedAt(sent, 6 + AnsweredIn(y, from, n), y, from, n)
  {
    assert Placed(vs, said, n - from);
    LineServed(y, vs, said, sent, from, n - from);
  }

  lemma LengthTold(y: Sayings, vs: seq<Verdict>, from: nat, end: nat, n: nat)
    requires end == from + |vs| && TellsAll(y, from, vs) && n == Answered(vs, |vs|)
    ensures n == AnsweredIn(y, from, end)
  {
    AnsweredTold(y, from, vs, |vs|);
  }

  lemma ServedTold(y: Sayings, vs: seq<Verdict>, said: seq<string>, sent: seq<string>, from: nat, end: nat)
    requires end == from + |vs| && |sent| >= 6 && said == sent[6..]
    requires TellsAll(y, from, vs) && InPlace(vs, said)
    ensures RepliesIn(sent, y, from, end)
  {
    LengthTold(y, vs, from, end, |said|);
    forall n: nat | from <= n < end && !y.silent(n)
      ensures RepliedAt(sent, 6 + AnsweredIn(y, from, n), y, from, n)
    {
      OneServed(y, vs, said, sent, from, n);
    }
  }

  lemma ServedShape(env: Env, me: Identity, writable: nat -> bool, lines: seq<string>, readErr: bool,
                    sent: seq<string>, from: nat) returns (vs: seq<Verdict>, said: seq<string>)
    requires Concluded(env, me, writable, lines, readErr, Served, sent)
    requires HandshakeFrom(lines, 0).Finished? && HandshakeFrom(lines, 0).at + 1 == from
    ensures from <= |lines| && vs == Verdicts(env, from, lines[from..])
    ensures |sent| >= 6 && sent[..6] == Greeting(me) && said == sent[6..] && InPlace(vs, said)
  {
    vs, said := Verdicts(env, from, lines[from..]), sent[6..];
    assert |vs| == |lines| - from;
    RenderedInPlace(vs, said);
  }

  /** A served connection, told from its input lines alone: after the CPID line that opens it, each line is
      answered, in its place behind the greeting, unless it is one the server is silent to; the answer is
      OK exactly when the line is a login by itself, and its id, its user and its error are as the lines up
      to it say. */
  lemma ConnectionExactly(env: Env, me: Identity, writable: nat -> bool, lines: seq<string>,
                          fields: seq<seq<string>>, readErr: bool, sent: seq<string>, from: nat)
    requires Concluded(env, me, writable, lines, readErr, Served, sent) && FieldsOfAll(lines, fields)
    requires 1 <= from <= |lines| && Opens(fields, from - 1)
    ensures Transcribes(me, sent, Says(env, lines), from, |lines|)
  {
    OpensExactly(lines, fields, from - 1);
    ServedBehind(env, me, writable, lines, readErr, sent, from);
  }

  lemma ServedBehind(env: Env, me: Identity, writable: nat -> bool, lines: seq<string>, readErr: bool,
                     sent: seq<string>, from: nat)
    requires Concluded(env, me, writable, lines, readErr, Served, sent)
    requires HandshakeFrom(lines, 0).Finished? && HandshakeFrom(lines, 0).at + 1 == from
    ensures from <= |lines| && Transcribes(me, sent, Says(env, lines), from, |lines|)
  {
    var vs, said := ServedShape(env, me, writable, lines, readErr, sent, from);
    RestTold(env, me, lines, vs, said, sent, from);
  }

  lemma RestTold(env: Env, me: Identity, lines: seq<string>, vs: seq<Verdict>, said: seq<string>, sent: seq<string>,
                 from: nat)
    requires from <= |lines| && vs == Verdicts(env, from, lines[from..]) && InPlace(vs, said)
    requires |sent| >= 6 && said == sent[6..] && sent[..6] == Greeting(me)
    ensures Transcribes(me, sent, Says(env, lines), from, |lines|)
  {
    VerdictsTell(env, from, lines, lines[from..]);
    ServedTold(Says(env, lines), vs, said, sent, from, |lines|);
  }
}
