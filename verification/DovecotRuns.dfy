/** What a client of the auth server can rely on, stated without the server's own parsing. */
module DovecotRuns {
  import opened GoStrings
  import opened DovecotAuth

  // ---- what a line says

  /** The PLAIN message of section 2 of RFC 4616, whose password the server lets hold anything. */
  ghost predicate Plain(auth: string, authzid: string, user: string, pass: string) {
    auth == authzid + ['\0'] + user + ['\0'] + pass && '\0' !in authzid && '\0' !in user
  }

  lemma SplitTwo(s: string, c: char, a: string, rest: string)
    requires s == a + [c] + rest && c !in a
    ensures Index(s, [c]) == |a| && s[..|a|] == a && s[|a| + 1..] == rest
  {
    IndexInPrefix(a, [c], rest);
    IndexOne(a, c);
  }

  lemma SplitAtIndex(s: string, c: char)
    ensures var i := Index(s, [c]);
            if i == -1 then c !in s
            else 0 <= i < |s| && s == s[..i] + [c] + s[i + 1..] && c !in s[..i]
  {
    var i := Index(s, [c]);
    ContainsOne(s, c);
    if i != -1 {
      forall j ensures OccursAt(s, [c], j) <==> 0 <= j < |s| && s[j] == c { OccursOne(s, c, j); }
      assert s[i] == c;
      assert s == s[..i] + [c] + s[i + 1..];
    }
  }

  lemma CutTwo(s: string, c: char, a: string, b: string)
    ensures SplitN(s, [c], 2) == [a, b] <==> s == a + [c] + b && c !in a
  {
    var i := Index(s, [c]);
    SplitAtIndex(s, c);
    if i != -1 {
      var rest := s[i + 1..];
      assert SplitN(rest, [c], 1) == [rest];
      assert SplitN(s, [c], 2) == [s[..i], rest];
    } else {
      assert SplitN(s, [c], 2) == [s];
    }
    if s == a + [c] + b && c !in a {
      SplitTwo(s, c, a, b);
    }
  }

  lemma CutFirst(s: string, c: char, a: string, rest: string)
    requires s == a + [c] + rest && c !in a
    ensures SplitN(s, [c], 3) == [a] + SplitN(rest, [c], 2)
  {
    SplitTwo(s, c, a, rest);
  }

  lemma CutThree(s: string, c: char, x: string, y: string, z: string)
    ensures SplitN(s, [c], 3) == [x] + [y, z] <==> s == x + [c] + (y + [c] + z) && c !in x && c !in y
  {
    var i := Index(s, [c]);
    SplitAtIndex(s, c);
    if i != -1 {
      var rest := s[i + 1..];
      CutFirst(s, c, s[..i], rest);
      ConsEqual(s[..i], SplitN(rest, [c], 2), x, [y, z]);
      CutTwo(rest, c, y, z);
    }
    if s == x + [c] + (y + [c] + z) && c !in x {
      SplitTwo(s, c, x, y + [c] + z);
    }
  }

  /** The server's cut of the decoded message is the PLAIN message's own. */
  lemma PlainExactly(auth: string, authzid: string, user: string, pass: string)
    ensures SplitN(auth, [NUL], 3) == [authzid, user, pass] <==> Plain(auth, authzid, user, pass)
  {
    var c: string := [NUL];
    CutThree(auth, NUL, authzid, user, pass);
    assert [authzid] + [user, pass] == [authzid, user, pass];
    assert authzid + c + (user + c + pass) == authzid + c + user + c + pass;
  }

  /** An argument gives `key` the value: "key=value", or "key" alone for the empty one. */
  ghost predicate Assigns(v: string, key: string, value: string) {
    v == key + [EQUALS] + value || (v == key && value == "")
  }

  ghost predicate Names(v: string, key: string) {
    exists value :: Assigns(v, key, value)
  }

  lemma AssignsExactly(v: string, key: string, value: string)
    requires EQUALS !in key
    ensures ParamName(v) == key && ParamValue(v) == value <==> Assigns(v, key, value)
    ensures ParamName(v) == key <==> Names(v, key)
  {
    var i := Index(v, [EQUALS]);
    SplitAtIndex(v, EQUALS);
    if i != -1 {
      assert SplitN(v[i + 1..], [EQUALS], 1) == [v[i + 1..]];
      assert SplitN(v, [EQUALS], 2) == [v[..i], v[i + 1..]];
      if ParamName(v) == key {
        assert Assigns(v, key, v[i + 1..]);
      }
    } else {
      assert SplitN(v, [EQUALS], 2) == [v];
      if ParamName(v) == key {
        assert Assigns(v, key, "");
      }
    }
    forall x | v == key + [EQUALS] + x ensures ParamName(v) == key && ParamValue(v) == x {
      SplitTwo(v, EQUALS, key, x);
    }
  }

  /** The last argument that names the key gives it this value. */
  ghost predicate Param(args: seq<string>, key: string, value: string) {
    exists i :: 0 <= i < |args| && Assigns(args[i], key, value) && forall j :: i < j < |args| ==> !Names(args[j], key)
  }

  ghost predicate NamedIn(args: seq<string>, key: string) {
    exists i :: 0 <= i < |args| && Names(args[i], key)
  }

  lemma NamedSnoc(front: seq<string>, v: string, key: string)
    ensures NamedIn(front + [v], key) <==> NamedIn(front, key) || Names(v, key)
  {
    var args := front + [v];
    assert args[|front|] == v;
    if NamedIn(front, key) {
      var i :| 0 <= i < |front| && Names(front[i], key);
      assert args[i] == front[i];
    }
    if NamedIn(args, key) {
      var i :| 0 <= i < |args| && Names(args[i], key);
      if i < |front| { assert front[i] == args[i]; }
    }
  }

  /** The parameter map holds, under each key, what the last argument naming the key says. */
  lemma {:induction false} ParamExactly(args: seq<string>, key: string, value: string)
    requires EQUALS !in key
    ensures key in Params(args) && Params(args)[key] == value <==> Param(args, key, value)
    ensures key in Params(args) <==> NamedIn(args, key)
    decreases |args|
  {
    if args != [] {
      var front, v := args[..|args| - 1], args[|args| - 1];
      assert args == front + [v];
      ParamExactly(front, key, value);
      AssignsExactly(v, key, value);
      ParamSnoc(front, v, key, value);
      NamedSnoc(front, v, key);
    }
  }

  lemma ParamSnoc(front: seq<string>, v: string, key: string, value: string)
    ensures Param(front + [v], key, value) <==> Assigns(v, key, value) || (!Names(v, key) && Param(front, key, value))
  {
    var args := front + [v];
    if Param(args, key, value) {
      var i :| 0 <= i < |args| && Assigns(args[i], key, value) && forall j :: i < j < |args| ==> !Names(args[j], key);
      if i < |front| {
        assert args[|front|] == v;
        assert forall j :: i < j < |front| ==> front[j] == args[j];
        assert front[i] == args[i];
      }
    }
    if Assigns(v, key, value) {
      assert args[|front|] == v;
    }
    if !Names(v, key) && Param(front, key, value) {
      var i :| 0 <= i < |front| && Assigns(front[i], key, value) &&
               forall j :: i < j < |front| ==> !Names(front[j], key);
      forall j | i < j < |args| ensures !Names(args[j], key) {
        if j < |front| { assert args[j] == front[j]; }
      }
      assert args[i] == front[i];
    }
  }

  ghost predicate TabFree(parts: seq<string>) {
    forall i :: 0 <= i < |parts| ==> TAB !in parts[i]
  }

  /** The tab-separated fields of a line. */
  ghost predicate Fields(line: string, fields: seq<string>) {
    fields != [] && TabFree(fields) && line == Join(fields, [TAB])
  }

  lemma FieldsExactly(line: string, fields: seq<string>)
    ensures Split(line, [TAB]) == fields <==> Fields(line, fields)
  {
    if Split(line, [TAB]) == fields {
      JoinSplit(line, [TAB]);
      SplitPartsFree(line, TAB);
    }
    if Fields(line, fields) {
      SplitJoinOne(fields, TAB);
    }
  }

  /** The arguments of an AUTH line that logs `user` in. */
  ghost predicate LoginArgs(env: Env, n: nat, args: seq<string>, user: string) {
    exists service, resp, auth, authzid, pass ::
      Param(args, "service", service) && Param(args, "resp", resp) &&
      env.decode(resp) == Some(auth) && Plain(auth, authzid, user, pass) && env.accepts(n, user, pass)
  }

  /** A line that logs `user` in under `id`: AUTH with the PLAIN mechanism, a service and a response, whose
      decoded PLAIN message the authenticator accepts. */
  ghost predicate IsLogin(env: Env, n: nat, line: string, id: string, user: string) {
    exists args :: Fields(line, ["AUTH", id, "PLAIN"] + args) && |args| >= 2 && LoginArgs(env, n, args, user)
  }

  lemma CredentialsExactly(env: Env, n: nat, id: string, resp: string, user: string)
    ensures JudgeCredentials(env, n, id, resp) == Login(id, user) <==>
            exists auth, authzid, pass ::
              env.decode(resp) == Some(auth) && Plain(auth, authzid, user, pass) && env.accepts(n, user, pass)
  {
    if env.decode(resp).Some? {
      var auth := env.decode(resp).value;
      var pair := SplitN(auth, [NUL], 3);
      if |pair| == 3 {
        assert pair == [pair[0], pair[1], pair[2]];
        PlainExactly(auth, pair[0], pair[1], pair[2]);
      }
      forall authzid, pass | Plain(auth, authzid, user, pass) ensures pair == [authzid, user, pass] {
        PlainExactly(auth, authzid, user, pass);
      }
    }
  }

  lemma AuthLogsIn(env: Env, n: nat, argv: seq<string>, id: string, user: string)
    requires |argv| >= 4 && JudgeAuth(env, n, argv) == Login(id, user)
    ensures argv[0] == id && argv[1] == "PLAIN" && LoginArgs(env, n, argv[2..], user)
  {
    var args := argv[2..];
    var param := Params(args);
    ParamExactly(args, "service", param["service"]);
    ParamExactly(args, "resp", param["resp"]);
    CredentialsExactly(env, n, id, param["resp"], user);
  }

  lemma AuthExactly(env: Env, n: nat, argv: seq<string>, id: string, user: string)
    requires |argv| >= 4
    ensures JudgeAuth(env, n, argv) == Login(id, user) <==>
            argv[0] == id && argv[1] == "PLAIN" && LoginArgs(env, n, argv[2..], user)
  {
    var args := argv[2..];
    if JudgeAuth(env, n, argv) == Login(id, user) {
      AuthLogsIn(env, n, argv, id, user);
    } else if argv[0] == id && argv[1] == "PLAIN" && LoginArgs(env, n, args, user) {
      var service, resp, auth, authzid, pass :|
        Param(args, "service", service) && Param(args, "resp", resp) &&
        env.decode(resp) == Some(auth) && Plain(auth, authzid, user, pass) && env.accepts(n, user, pass);
      ParamExactly(args, "service", service);
      ParamExactly(args, "resp", resp);
      CredentialsExactly(env, n, id, resp, user);
    }
  }

  lemma AuthFields(fields: seq<string>, id: string, args: seq<string>)
    ensures fields == ["AUTH", id, "PLAIN"] + args <==>
            |fields| >= 3 && fields[0] == "AUTH" && fields[1] == id && fields[2] == "PLAIN" && fields[3..] == args
  {
  }

  // ---- why a line is refused

  /** A response is refused for not decoding, for not being a PLAIN message, or by the authenticator. */
  ghost predicate ResponseFails(env: Env, n: nat, resp: string, error: string) {
    match env.decode(resp)
    case None => error == "failed to decode resp"
    case Some(auth) =>
      if exists authzid, user, pass :: Plain(auth, authzid, user, pass)
      then error == "invalid username or password" &&
           exists authzid, user, pass :: Plain(auth, authzid, user, pass) && !env.accepts(n, user, pass)
      else error == "invalid auth resp"
  }

  /** The arguments of an AUTH line, behind its id: the mechanism and the parameters. */
  ghost predicate ArgumentsFail(env: Env, n: nat, mechanism: string, args: seq<string>, error: string) {
    if mechanism != "PLAIN" then error == "invalid auth type"
    else if !NamedIn(args, "service") then error == "service not found"
    else if !NamedIn(args, "resp") then error == "resp not found"
    else exists resp :: Param(args, "resp", resp) && ResponseFails(env, n, resp, error)
  }

  ghost predicate FieldsFail(env: Env, n: nat, line: string, f: seq<string>, error: string) {
    if |f| < 3 then error == "invalid command: " + line
    else f[0] == "AUTH" && if |f| < 5 then error == "invalid arguments" else ArgumentsFail(env, n, f[2], f[3..], error)
  }

  /** A line is refused with this error. */
  ghost predicate Fails(env: Env, n: nat, line: string, error: string) {
    exists f :: Fields(line, f) && FieldsFail(env, n, line, f, error)
  }

  ghost predicate RefusedWith(v: Verdict, error: string) {
    v.Refusal? && v.error == error
  }

  lemma ResponseFailsExactly(env: Env, n: nat, id: string, resp: string, error: string)
    ensures RefusedWith(JudgeCredentials(env, n, id, resp), error) <==> ResponseFails(env, n, resp, error)
  {
    if env.decode(resp).Some? {
      var auth := env.decode(resp).value;
      var pair := SplitN(auth, [NUL], 3);
      forall a, u, p | Plain(auth, a, u, p) ensures pair == [a, u, p] { PlainExactly(auth, a, u, p); }
      if |pair| == 3 {
        assert pair == [pair[0], pair[1], pair[2]];
        PlainExactly(auth, pair[0], pair[1], pair[2]);
      }
    }
  }

  lemma ArgumentsFailExactly(env: Env, n: nat, argv: seq<string>, error: string)
    requires |argv| >= 4
    ensures RefusedWith(JudgeAuth(env, n, argv), error) <==> ArgumentsFail(env, n, argv[1], argv[2..], error)
  {
    var args := argv[2..];
    var param := Params(args);
    ParamExactly(args, "service", "");
    ParamExactly(args, "resp", "");
    forall resp ensures Param(args, "resp", resp) <==> "resp" in param && param["resp"] == resp {
      ParamExactly(args, "resp", resp);
    }
    if "resp" in param {
      ResponseFailsExactly(env, n, argv[0], param["resp"], error);
    }
  }

  /** The error of a refusal is read off the line itself, whatever went before. */
  lemma FailsExactly(env: Env, n: nat, line: string, error: string)
    ensures RefusedWith(Judge(env, n, line), error) <==> Fails(env, n, line, error)
  {
    var f := Split(line, [TAB]);
    FieldsExactly(line, f);
    forall g | Fields(line, g) ensures g == f { FieldsExactly(line, g); }
    if |f| >= 5 && f[0] == "AUTH" {
      var argv := f[1..];
      ArgumentsFailExactly(env, n, argv, error);
      assert argv[1] == f[2] && argv[2..] == f[3..];
    }
  }

  // ---- when a line logs in

  /** A line is answered OK exactly when it is a login, whatever went before. */
  lemma LoginExactly(env: Env, n: nat, line: string, id: string, user: string)
    ensures Judge(env, n, line) == Login(id, user) <==> IsLogin(env, n, line, id, user)
  {
    var fields := Split(line, [TAB]);
    FieldsExactly(line, fields);
    if |fields| >= 5 && fields[0] == "AUTH" {
      var argv := fields[1..];
      AuthExactly(env, n, argv, id, user);
      AuthFields(fields, id, fields[3..]);
      assert argv[2..] == fields[3..];
    }
    if IsLogin(env, n, line, id, user) {
      var args :| Fields(line, ["AUTH", id, "PLAIN"] + args) && |args| >= 2 && LoginArgs(env, n, args, user);
      FieldsExactly(line, ["AUTH", id, "PLAIN"] + args);
      AuthFields(fields, id, args);
    }
  }

  /** Round trip: a line put together from an id, a service name and the encoded PLAIN message of any
      NUL-free authorization id and user and any password is read back as exactly these, '=' signs in
      service and response included; it is a login when the authenticator accepts user and password, and
      otherwise refused for them. */
  lemma LoginRoundTrip(env: Env, n: nat, encode: string -> string, id: string, service: string,
                       authzid: string, user: string, pass: string)
    requires TAB !in id && TAB !in service && TAB !in encode(authzid + [NUL] + user + [NUL] + pass)
    requires env.decode(encode(authzid + [NUL] + user + [NUL] + pass)) == Some(authzid + [NUL] + user + [NUL] + pass)
    requires NUL !in authzid && NUL !in user
    ensures var resp := encode(authzid + [NUL] + user + [NUL] + pass);
            var line := Join(["AUTH", id, "PLAIN", "service=" + service, "resp=" + resp], [TAB]);
            Split(line, [TAB]) == ["AUTH", id, "PLAIN", "service=" + service, "resp=" + resp] &&
            Params(["service=" + service, "resp=" + resp]) == map["service" := service, "resp" := resp] &&
            Judge(env, n, line) ==
              if env.accepts(n, user, pass) then Login(id, user)
              else Refusal(Some(id), Some(user), "invalid username or password")
  {
    var auth := authzid + [NUL] + user + [NUL] + pass;
    var resp := encode(auth);
    var argv := [id, "PLAIN", "service=" + service, "resp=" + resp];
    var fields := ["AUTH", id, "PLAIN", "service=" + service, "resp=" + resp];
    var line := Join(fields, [TAB]);
    assert Fields(line, fields);
    FieldsExactly(line, fields);
    assert fields[1..] == argv;
    TwoParams(service, resp);
    ArgsRoundTrip(env, n, argv, id, service, resp, authzid, user, pass);
  }

  lemma ArgsRoundTrip(env: Env, n: nat, argv: seq<string>, id: string, service: string, resp: string,
                      authzid: string, user: string, pass: string)
    requires argv == [id, "PLAIN", "service=" + service, "resp=" + resp]
    requires env.decode(resp) == Some(authzid + [NUL] + user + [NUL] + pass) && NUL !in authzid && NUL !in user
    ensures JudgeAuth(env, n, argv) ==
            if env.accepts(n, user, pass) then Login(id, user)
            else Refusal(Some(id), Some(user), "invalid username or password")
  {
    TwoParams(service, resp);
    assert argv[2..] == ["service=" + service, "resp=" + resp];
    PlainExactly(authzid + [NUL] + user + [NUL] + pass, authzid, user, pass);
    assert |[authzid, user, pass]| == 3;
  }

  lemma TwoParams(service: string, resp: string)
    ensures Params(["service=" + service, "resp=" + resp]) == map["service" := service, "resp" := resp]
  {
    var a, b := "service=" + service, "resp=" + resp;
    var args := [a, b];
    assert args[..1] == [a] && [a][..0] == [];
    assert "service" + [EQUALS] == "service=" && "resp" + [EQUALS] == "resp=";
    AssignsExactly(a, "service", service);
    AssignsExactly(b, "resp", resp);
    assert Params([a]) == map["service" := service];
  }

  // ---- whole runs

  /** An AUTH line with enough arguments to set the session's id. */
  ghost predicate SetsId(line: string, id: string) {
    exists fields :: Fields(line, fields) && |fields| >= 5 && fields[0] == "AUTH" && fields[1] == id
  }

  /** The server says nothing to lines of at least three fields that are not AUTH. */
  ghost predicate Unanswered(line: string) {
    exists fields :: Fields(line, fields) && |fields| >= 3 && fields[0] != "AUTH"
  }

  function IdOf(v: Verdict): Option<string> {
    match v case Silent => None case Refusal(newId, _, _) => newId case Login(id, _) => Some(id)
  }

  lemma AuthId(env: Env, n: nat, argv: seq<string>)
    requires |argv| >= 4
    ensures !JudgeAuth(env, n, argv).Silent? && IdOf(JudgeAuth(env, n, argv)) == Some(argv[0])
  {
  }

  lemma FieldsOfSplit(line: string, fields: seq<string>)
    ensures Fields(line, Split(line, [TAB]))
    ensures Fields(line, fields) ==> fields == Split(line, [TAB])
  {
    FieldsExactly(line, Split(line, [TAB]));
    FieldsExactly(line, fields);
  }

  lemma SetsIdExactly(line: string, id: string)
    ensures var t := Split(line, [TAB]); SetsId(line, id) <==> |t| >= 5 && t[0] == "AUTH" && t[1] == id
  {
    FieldsOfSplit(line, []);
    forall fields | Fields(line, fields) ensures fields == Split(line, [TAB]) { FieldsOfSplit(line, fields); }
  }

  lemma UnansweredExactly(line: string)
    ensures var t := Split(line, [TAB]); Unanswered(line) <==> |t| >= 3 && t[0] != "AUTH"
  {
    FieldsOfSplit(line, []);
    forall fields | Fields(line, fields) ensures fields == Split(line, [TAB]) { FieldsOfSplit(line, fields); }
  }

  /** Which lines set the id, and which the server is silent to. */
  lemma IdExactly(env: Env, n: nat, line: string, id: string)
    ensures IdOf(Judge(env, n, line)) == Some(id) <==> SetsId(line, id)
    ensures Judge(env, n, line).Silent? <==> Unanswered(line)
  {
    SetsIdExactly(line, id);
    UnansweredExactly(line);
    var t := Split(line, [TAB]);
    if |t| >= 5 && t[0] == "AUTH" {
      AuthId(env, n, t[1..]);
    }
  }

  /** The id of the latest of the first k verdicts that has one, or nothing. */
  ghost predicate LatestId(vs: seq<Verdict>, k: nat, id: string)
    requires k <= |vs|
  {
    (exists j :: 0 <= j < k && IdOf(vs[j]) == Some(id) && forall i :: j < i < k ==> IdOf(vs[i]) == None) ||
    (id == "" && forall i :: 0 <= i < k ==> IdOf(vs[i]) == None)
  }

  /** The user of the latest login among the first k verdicts. */
  ghost predicate LatestUser(vs: seq<Verdict>, k: nat, user: string)
    requires k <= |vs|
  {
    exists j :: 0 <= j < k && vs[j].Login? && vs[j].user == user && forall i :: j < i < k ==> !vs[i].Login?
  }

  /** What the loop carries: the latest id; a user exactly after a login, the latest one's, whatever user
      names were refused since; and no other keys than error and user. */
  ghost predicate Carried(vs: seq<Verdict>, k: nat, s: AuthState)
    requires k <= |vs|
  {
    LatestId(vs, k, s.id) && s.data.Keys <= {"error", "user"} &&
    (s.done <==> exists j :: 0 <= j < k && vs[j].Login?) &&
    ("user" in s.data <==> s.done) && ("user" in s.data ==> LatestUser(vs, k, s.data["user"]))
  }

  lemma LatestIdStep(vs: seq<Verdict>, k: nat, id: string)
    requires k < |vs| && LatestId(vs, k, id)
    ensures LatestId(vs, k + 1, if IdOf(vs[k]).Some? then IdOf(vs[k]).value else id)
  {
  }

  lemma LatestUserStep(vs: seq<Verdict>, k: nat, user: string)
    requires k < |vs| && (vs[k].Login? || LatestUser(vs, k, user))
    ensures LatestUser(vs, k + 1, if vs[k].Login? then vs[k].user else user)
  {
  }

  lemma CarriedStart(vs: seq<Verdict>)
    ensures Carried(vs, 0, FRESH)
  {
  }

  lemma CarriedStep(vs: seq<Verdict>, k: nat, s: AuthState)
    requires k < |vs| && Carried(vs, k, s)
    ensures Carried(vs, k + 1, After(s, vs[k]))
  {
    LatestIdStep(vs, k, s.id);
    match vs[k]
    case Login(_, _) =>
      LoginReply(s, vs[k]);
      LatestUserStep(vs, k, "");
    case _ =>
      if "user" in s.data {
        LatestUserStep(vs, k, s.data["user"]);
      }
  }

  lemma LoginReply(s: AuthState, v: Verdict)
    requires v.Login? && s.data.Keys <= {"error", "user"}
    ensures After(s, v).data == map["user" := v.user]
  {
  }

  lemma {:induction false} StateCarried(vs: seq<Verdict>, k: nat)
    requires k <= |vs|
    ensures Carried(vs, k, StateAt(vs, k))
  {
    if k == 0 {
      CarriedStart(vs);
    } else {
      StateCarried(vs, k - 1);
      CarriedStep(vs, k - 1, StateAt(vs, k - 1));
      assert StateAt(vs, k) == After(StateAt(vs, k - 1), vs[k - 1]);
    }
  }

  ghost predicate LogsIn(env: Env, n: nat, line: string) {
    exists id, user :: IsLogin(env, n, line, id, user)
  }

  lemma LogsInExactly(env: Env, n: nat, line: string)
    ensures Judge(env, n, line).Login? <==> LogsIn(env, n, line)
  {
    var v := Judge(env, n, line);
    if v.Login? {
      LoginExactly(env, n, line, v.id, v.user);
    }
    if LogsIn(env, n, line) {
      var id, user :| IsLogin(env, n, line, id, user);
      LoginExactly(env, n, line, id, user);
    }
  }

  /** The verdict on a line, read off the line itself. */
  lemma JudgedExactly(env: Env, n: nat, line: string, id: string, user: string)
    ensures var v := Judge(env, n, line);
            (IdOf(v) == Some(id) <==> SetsId(line, id)) &&
            (v == Login(id, user) <==> IsLogin(env, n, line, id, user)) &&
            (v.Login? <==> LogsIn(env, n, line)) &&
            (v.Silent? <==> Unanswered(line))
  {
    IdExactly(env, n, line, id);
    LoginExactly(env, n, line, id, user);
    LogsInExactly(env, n, line);
  }

  /** Every line of the auth phase gets one reply, except those of at least three fields that are not
      AUTH; the reply is OK exactly when the line is a login by itself, whatever went before. */
  lemma AnsweredExactly(env: Env, n: nat, line: string, vs: seq<Verdict>, k: nat)
    requires k < |vs| && vs[k] == Judge(env, n, line)
    ensures var a := AnswerAt(vs, k);
            (a.None? <==> Unanswered(line)) && (a.Some? && a.value.ok <==> LogsIn(env, n, line))
  {
    JudgedExactly(env, n, line, "", "");
  }

  /** What a reply carries. OK: just the user, that of its own line. FAIL: an error, and a user exactly
      after an earlier login, the latest one's. Either: the id of the latest AUTH line with enough
      arguments, this line included, or nothing. */
  lemma ReplyExactly(vs: seq<Verdict>, k: nat)
    requires k < |vs| && !vs[k].Silent?
    ensures var r := AnswerAt(vs, k).value;
            LatestId(vs, k + 1, r.id) && r.ok == vs[k].Login? &&
            (r.ok ==> r.data == map["user" := vs[k].user] && r.id == vs[k].id) &&
            (!r.ok ==> "error" in r.data && r.data["error"] == vs[k].error && r.data.Keys <= {"error", "user"} &&
                       ("user" in r.data <==> exists j :: 0 <= j < k && vs[j].Login?) &&
                       ("user" in r.data ==> LatestUser(vs, k, r.data["user"])))
  {
    var s, v := StateAt(vs, k), vs[k];
    StateCarried(vs, k);
    LatestIdStep(vs, k, s.id);
    if v.Login? {
      LoginReply(s, v);
    }
  }

  /** How many of the first k lines are answered. */
  function Answered(vs: seq<Verdict>, k: nat): nat
    requires k <= |vs|
  {
    if k == 0 then 0 else Answered(vs, k - 1) + if vs[k - 1].Silent? then 0 else 1
  }

  lemma {:induction false} RepliesInOrder(vs: seq<Verdict>, k: nat, j: nat)
    requires j <= k <= |vs|
    ensures |Replies(vs, k)| == Answered(vs, k)
    ensures j < k && !vs[j].Silent? ==>
              Answered(vs, j) < Answered(vs, k) && Replies(vs, k)[Answered(vs, j)] == AnswerAt(vs, j).value
    decreases k
  {
    if k > 0 {
      RepliesInOrder(vs, k - 1, if j < k then j else k - 1);
    }
  }

  lemma TranscriptOf(vs: seq<Verdict>, said: seq<string>, k: nat)
    requires RendersAll(said, Replies(vs, |vs|)) && k < |vs|
    ensures |said| == Answered(vs, |vs|)
    ensures AnswerAt(vs, k).Some? ==>
              Answered(vs, k) < |said| && Renders(said[Answered(vs, k)], AnswerAt(vs, k).value)
  {
    RepliesInOrder(vs, |vs|, k);
    RendersEach(said, Replies(vs, |vs|));
  }

  /** The reply line that a line of the auth phase gets in the transcript, if it gets one, after those to
      the lines before it. */
  ghost predicate RepliedIn(said: seq<string>, vs: seq<Verdict>, k: nat, ok: bool)
    requires k < |vs|
  {
    var a := AnswerAt(vs, k);
    a.Some? && a.value.ok == ok && Answered(vs, k) < |said| && Renders(said[Answered(vs, k)], a.value)
  }

  /** The transcript after the greeting: as many lines as input lines are answered, and each input line
      that the server is not silent to has its reply there, OK exactly when the line is a login by itself. */
  lemma TranscriptExactly(env: Env, n: nat, line: string, vs: seq<Verdict>, said: seq<string>, k: nat)
    requires RendersAll(said, Replies(vs, |vs|)) && k < |vs| && vs[k] == Judge(env, n, line)
    ensures |said| == Answered(vs, |vs|)
    ensures !Unanswered(line) ==> RepliedIn(said, vs, k, LogsIn(env, n, line))
  {
    TranscriptOf(vs, said, k);
    AnsweredExactly(env, n, line, vs, k);
  }

  // ---- the handshake

  /** A line the handshake passes over, by its fields: at least two, not CPID, and no VERSION but 1. */
  predicate Passing(fields: seq<string>) {
    |fields| >= 2 && fields[0] != "CPID" && (fields[0] == "VERSION" ==> fields[1] == "1")
  }

  predicate IsCpid(fields: seq<string>, cpid: string) {
    |fields| >= 2 && fields[0] == "CPID" && fields[1] == cpid
  }

  lemma HandshakeStep(lines: seq<string>, i: nat, f: seq<string>)
    requires i < |lines| && Fields(lines[i], f)
    ensures HandshakeFrom(lines, i) ==
            if |f| < 2 || (f[0] == "VERSION" && f[1] != "1") then Refused
            else if f[0] == "CPID" then Finished(i, f[1]) else HandshakeFrom(lines, i + 1)
  {
    FieldsExactly(lines[i], f);
  }

  ghost predicate AllPassing(fields: seq<seq<string>>, i: nat, at: nat)
    requires at <= |fields|
  {
    forall j :: i <= j < at ==> Passing(fields[j])
  }

  lemma AllPassingStep(fields: seq<seq<string>>, i: nat, at: nat)
    requires i < at <= |fields|
    ensures AllPassing(fields, i, at) <==> Passing(fields[i]) && AllPassing(fields, i + 1, at)
  {
  }

  /** The greeting is sent exactly after a CPID line that only passing lines precede, whatever the
      tab-separated fields of the lines are. */
  lemma {:induction false} HandshakeExactly(lines: seq<string>, fields: seq<seq<string>>, i: nat, at: nat, cpid: string)
    requires i <= |lines| == |fields| && forall j :: 0 <= j < |lines| ==> Fields(lines[j], fields[j])
    ensures HandshakeFrom(lines, i) == Finished(at, cpid) <==>
            i <= at < |lines| && IsCpid(fields[at], cpid) && AllPassing(fields, i, at)
    decreases |lines| - i
  {
    if i < |lines| {
      HandshakeStep(lines, i, fields[i]);
      if Passing(fields[i]) {
        HandshakeExactly(lines, fields, i + 1, at, cpid);
      }
      if i < at < |lines| {
        AllPassingStep(fields, i, at);
      }
    }
  }
}
