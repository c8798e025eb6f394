/** `challenge`, `sign_in` and `walk` of scripts/journey_walker.py: bounded loops against a
    server that may answer anything. */
module Journey {
  import opened Results

  const MAX_REDIRECTS := 15
  const SIGNED_IN := "xak-flow-redirect"
  const ANSWERABLE: set<string> := {"ak-stage-identification", "ak-stage-password"}

  /** An empty location stands for none. */
  datatype Response = Response(status: int, location: string, component: string)

  /** A request; the credentials travel in answers only. */
  datatype Request = Get(url: string) | Answer(url: string, component: string)

  datatype Failure = Broken | Stopped(component: string)

  ghost predicate Redirects(r: Response) {
    300 <= r.status < 400 && r.location != ""
  }

  /** The part of a URL before its query and fragment. */
  function WithoutQuery(url: string): string {
    if url == "" || url[0] == '#' || url[0] == '?' then "" else [url[0]] + WithoutQuery(url[1..])
  }

  lemma {:induction false} WithoutQueryHides(url: string)
    ensures WithoutQuery(url) <= url && '?' !in WithoutQuery(url) && '#' !in WithoutQuery(url)
    ensures WithoutQuery(url) == url || url[|WithoutQuery(url)|] == '?' || url[|WithoutQuery(url)|] == '#'
    decreases |url|
  {
    if url != "" && url[0] != '#' && url[0] != '?' {
      WithoutQueryHides(url[1..]);
    }
  }

  /** A request with the response to it; none, if the connection failed. */
  datatype Exchange = Exchange(request: Request, response: Option<Response>)

  type Log = seq<Exchange>

  class Server {
    var log: Log
    /** How the client resolves a Location against a URL. */
    const join: (string, string) -> string

    constructor (join: (string, string) -> string)
      ensures log == []
    {
      this.join := join;
      log := [];
    }

    /** Any response whatever, or a connection failure. */
    method Open(request: Request) returns (r: Option<Response>)
      modifies this`log
      ensures log == old(log) + [Exchange(request, r)]
    {
      var broken: bool := *;
      var status: int := *;
      var location: string := *;
      var component: string := *;
      r := if broken then None else Some(Response(status, location, component));
      log := log + [Exchange(request, r)];
    }
  }

  // ----- Following redirects -----

  /** `b` is the plain request that the redirect answering `a` asks for. */
  ghost predicate RedirectedTo(a: Exchange, b: Exchange, base: string, join: (string, string) -> string) {
    a.response.Some? && Redirects(a.response.value) && b.request == Get(join(base, a.response.value.location))
  }

  /** The exchanges of a challenge with its result: redirects are followed as long as there are
      any, up to the bound, and the last answer is the result. */
  ghost predicate ChallengeLog(log: Log, first: Request, join: (string, string) -> string, r: Result<string, Failure>) {
    && 1 <= |log| <= 1 + MAX_REDIRECTS && log[0].request == first
    && (forall i | 1 <= i < |log| :: RedirectedTo(log[i - 1], log[i], first.url, join))
    && match log[|log| - 1].response
       case None => r == Err(Broken)
       case Some(last) => r == Ok(last.component) && (Redirects(last) ==> |log| == 1 + MAX_REDIRECTS)
  }

  /** `challenge`: one request, then at most fifteen redirects, which carry no answer. */
  method Challenge(server: Server, first: Request) returns (r: Result<string, Failure>, ghost log: Log)
    modifies server`log
    ensures server.log == old(server.log) + log
    ensures ChallengeLog(log, first, server.join, r)
  {
    var answer := server.Open(first);
    log := [Exchange(first, answer)];
    if answer.None? {
      return Err(Broken), log;
    }
    for i := 0 to MAX_REDIRECTS
      invariant server.log == old(server.log) + log
      invariant |log| == 1 + i && log[0].request == first && log[i].response == answer && answer.Some?
      invariant forall k | 1 <= k < |log| :: RedirectedTo(log[k - 1], log[k], first.url, server.join)
    {
      if !(300 <= answer.value.status < 400 && answer.value.location != "") {
        break;
      }
      var next := Get(server.join(first.url, answer.value.location));
      answer := server.Open(next);
      log := log + [Exchange(next, answer)];
      if answer.None? {
        return Err(Broken), log;
      }
    }
    return Ok(answer.value.component), log;
  }

  // ----- Signing in -----

  /** The answers sent so far: only to the executor, only for stages the client knows, for each
      at most once, and each for the stage that was last asked for. */
  ghost predicate AnswersOnce(log: Log, executor: string, answered: set<string>) {
    && (forall i | 0 <= i < |log| && log[i].request.Answer? ::
          && log[i].request.url == executor && log[i].request.component in answered
          && i > 0 && log[i - 1].response.Some? && log[i - 1].response.value.component == log[i].request.component)
    && (forall i, j | 0 <= i < j < |log| && log[i].request.Answer? && log[j].request.Answer? ::
          log[i].request.component != log[j].request.component)
  }

  predicate Answered(log: Log, component: string) {
    exists i | 0 <= i < |log| :: log[i].request.Answer? && log[i].request.component == component
  }

  lemma NoAnswersYet(log: Log, executor: string, join: (string, string) -> string, r: Result<string, Failure>)
    requires ChallengeLog(log, Get(executor), join, r)
    ensures AnswersOnce(log, executor, {}) && forall c :: !Answered(log, c)
  {
    forall i | 0 <= i < |log|
      ensures log[i].request.Get?
    {
      if i > 0 {
        assert RedirectedTo(log[i - 1], log[i], executor, join);
      }
    }
  }

  /** One more challenge, which answers the stage the log ends with. */
  lemma AnswersOnceAfter(log: Log, more: Log, executor: string, answered: set<string>, component: string,
      join: (string, string) -> string, r: Result<string, Failure>)
    requires AnswersOnce(log, executor, answered) && component !in answered
    requires EndsWith(log, Ok(component)) && ChallengeLog(more, Answer(executor, component), join, r)
    ensures AnswersOnce(log + more, executor, answered + {component})
    ensures forall c :: Answered(log + more, c) <==> Answered(log, c) || c == component
    ensures EndsWith(log + more, r)
  {
    var all, n := log + more, |log|;
    forall i | n < i < |all|
      ensures all[i].request.Get?
    {
      assert RedirectedTo(more[i - n - 1], more[i - n], executor, join);
    }
    assert all[n] == more[0] && all[|all| - 1] == more[|more| - 1];
    forall c
      ensures Answered(all, c) <==> Answered(log, c) || c == component
    {
      if i :| 0 <= i < |log| && log[i].request.Answer? && log[i].request.component == c {
        assert all[i] == log[i];
      }
    }
  }

  /** The last exchange of the log brought this. */
  predicate EndsWith(log: Log, r: Result<string, Failure>) {
    log != [] && match log[|log| - 1].response
    case None => r == Err(Broken)
    case Some(last) => r == Ok(last.component)
  }

  /** Success is the signed-in component, a broken connection is reported as such, and a stop is
      at a stage that has no answer or has had it. */
  ghost predicate SignInEnds(log: Log, r: Result<(), Failure>) {
    match r
    case Ok(_) => EndsWith(log, Ok(SIGNED_IN))
    case Err(Broken) => EndsWith(log, Err(Broken))
    case Err(Stopped(component)) =>
      && EndsWith(log, Ok(component)) && component != SIGNED_IN
      && (component !in ANSWERABLE || Answered(log, component))
  }

  /** So the outcome can be read off the log. */
  lemma SignedInIff(log: Log, r: Result<(), Failure>)
    requires SignInEnds(log, r)
    ensures r.Ok? <==> EndsWith(log, Ok(SIGNED_IN))
    ensures r == Err(Broken) <==> EndsWith(log, Err(Broken))
  {
  }

  /** `sign_in` ends against any server: it sends each known stage one answer at most, when it is
      asked for, to the executor and nowhere else; it makes at most three challenges. */
  method SignIn(server: Server, executor: string) returns (r: Result<(), Failure>, ghost log: Log)
    modifies server`log
    ensures server.log == old(server.log) + log
    ensures AnswersOnce(log, executor, ANSWERABLE)
    ensures 1 <= |log| <= 3 * (1 + MAX_REDIRECTS) && log[0].request == Get(executor)
    ensures SignInEnds(log, r)
  {
    hide AnswersOnce, Answered, ChallengeLog;
    var answered: set<string> := {};
    var current, first := Challenge(server, Get(executor));
    log := first;
    NoAnswersYet(first, executor, server.join, current);
    while current.Ok? && current.value != SIGNED_IN
      invariant server.log == old(server.log) + log && log != [] && log[0].request == Get(executor)
      invariant EndsWith(log, current)
      invariant answered <= ANSWERABLE && AnswersOnce(log, executor, answered)
      invariant forall c :: Answered(log, c) <==> c in answered
      invariant |log| <= (1 + |answered|) * (1 + MAX_REDIRECTS)
      decreases ANSWERABLE - answered, current.Ok?
    {
      var component := current.value;
      AnswersWithin(log, executor, answered);
      if component !in ANSWERABLE || component in answered {
        return Err(Stopped(component)), log;
      }
      var next, more := Challenge(server, Answer(executor, component));
      AnswersOnceAfter(log, more, executor, answered, component, server.join, next);
      current, log, answered := next, log + more, answered + {component};
    }
    AnswersWithin(log, executor, answered);
    return if current.Ok? then Ok(()) else Err(current.error), log;
  }

  lemma AnswersWithin(log: Log, executor: string, answered: set<string>)
    requires AnswersOnce(log, executor, answered) && answered <= ANSWERABLE
    ensures AnswersOnce(log, executor, ANSWERABLE) && |answered| <= 2
  {
    SubsetSize(answered, ANSWERABLE);
  }

  lemma {:induction false} SubsetSize<T>(a: set<T>, b: set<T>)
    requires a <= b
    ensures |a| <= |b|
    decreases |a|
  {
    if a != {} {
      var x :| x in a;
      SubsetSize(a - {x}, b - {x});
    }
  }

  // ----- Walking a URL -----

  datatype Outcome = Outcome(status: int, finalUrl: string, hops: seq<(int, string)>, exhausted: bool)

  /** What is shown of an exchange: the status, and the URL without query. */
  predicate Hop(e: Exchange, hop: (int, string)) {
    e.response.Some? && hop == (e.response.value.status, WithoutQuery(e.request.url))
  }

  /** The exchanges of a walk with its outcome: plain GETs that follow the redirects, a hop shown
      for each answer, and the outcome of the last exchange. */
  ghost predicate WalkLog(log: Log, url: string, join: (string, string) -> string, o: Outcome) {
    && 1 <= |log| <= MAX_REDIRECTS + 1 && log[0].request == Get(url)
    && (forall i | 1 <= i < |log| :: RedirectedTo(log[i - 1], log[i], log[i - 1].request.url, join))
    && |o.hops| <= |log| && (forall i | 0 <= i < |o.hops| :: Hop(log[i], o.hops[i]))
    && var last := log[|log| - 1];
       match last.response
       case None => o.status == -1 && o.finalUrl == last.request.url && |o.hops| == |log| - 1 && !o.exhausted
       case Some(response) =>
         && o.status == response.status && |o.hops| == |log|
         && o.exhausted == Redirects(response) && (o.exhausted ==> |log| == MAX_REDIRECTS + 1)
         && o.finalUrl == if o.exhausted then join(last.request.url, response.location) else last.request.url
  }

  /** The walk so far: all answers were redirects, and `current` is where the last one leads. */
  ghost predicate Walking(log: Log, url: string, join: (string, string) -> string, hops: seq<(int, string)>,
      current: string)
  {
    && |log| == |hops| && (if log == [] then current == url else log[0].request == Get(url))
    && (forall i | 1 <= i < |log| :: RedirectedTo(log[i - 1], log[i], log[i - 1].request.url, join))
    && (forall i | 0 <= i < |log| :: Hop(log[i], hops[i]))
    && (log != [] ==>
          var last := log[|log| - 1];
          last.response.Some? && Redirects(last.response.value)
          && current == join(last.request.url, last.response.value.location))
  }

  /** One more exchange ends the walk or takes it on. */
  lemma WalkOn(log: Log, url: string, join: (string, string) -> string, hops: seq<(int, string)>, current: string,
      response: Response)
    requires Walking(log, url, join, hops, current) && |log| <= MAX_REDIRECTS
    ensures var all := log + [Exchange(Get(current), Some(response))];
      var shown, next := hops + [(response.status, WithoutQuery(current))], join(current, response.location);
      if Redirects(response) then
        Walking(all, url, join, shown, next)
        && (|log| == MAX_REDIRECTS ==> WalkLog(all, url, join, Outcome(response.status, next, shown, true)))
      else
        WalkLog(all, url, join, Outcome(response.status, current, shown, false))
  {
    hide WithoutQuery;
    var e := Exchange(Get(current), Some(response));
    var all := log + [e];
    assert all[|log|] == e;
    assert forall i | 0 <= i < |log| :: all[i] == log[i];
  }

  lemma WalkBreaks(log: Log, url: string, join: (string, string) -> string, hops: seq<(int, string)>, current: string)
    requires Walking(log, url, join, hops, current) && |log| <= MAX_REDIRECTS
    ensures WalkLog(log + [Exchange(Get(current), None)], url, join, Outcome(-1, current, hops, false))
  {
    hide WithoutQuery;
    var all := log + [Exchange(Get(current), None)];
    assert forall i | 0 <= i < |log| :: all[i] == log[i];
  }

  /** `walk`. */
  method Walk(server: Server, url: string) returns (o: Outcome, ghost log: Log)
    modifies server`log
    ensures server.log == old(server.log) + log
    ensures WalkLog(log, url, server.join, o)
    ensures 200 <= o.status < 300 ==>
      !o.exhausted && o.hops != [] && o.hops[|o.hops| - 1] == (o.status, WithoutQuery(o.finalUrl))
  {
    hide WithoutQuery, Walking, WalkLog;
    var current := url;
    var hops: seq<(int, string)> := [];
    log := [];
    var status := -1;
    assert Walking(log, url, server.join, hops, current) by {
      NoWalkYet(url, server.join);
    }
    for i := 0 to MAX_REDIRECTS + 1
      invariant server.log == old(server.log) + log && |log| == i
      invariant Walking(log, url, server.join, hops, current)
      invariant i > 0 ==> 300 <= status < 400
      invariant i == MAX_REDIRECTS + 1 ==> WalkLog(log, url, server.join, Outcome(status, current, hops, true))
    {
      var answer := server.Open(Get(current));
      if answer.None? {
        WalkBreaks(log, url, server.join, hops, current);
        return Outcome(-1, current, hops, false), log + [Exchange(Get(current), None)];
      }
      WalkOn(log, url, server.join, hops, current, answer.value);
      log := log + [Exchange(Get(current), answer)];
      status := answer.value.status;
      hops := hops + [(status, WithoutQuery(current))];
      if !(300 <= answer.value.status < 400 && answer.value.location != "") {
        return Outcome(status, current, hops, false), log;
      }
      current := server.join(current, answer.value.location);
    }
    return Outcome(status, current, hops, true), log;
  }

  lemma NoWalkYet(url: string, join: (string, string) -> string)
    ensures Walking([], url, join, [], url)
  {
  }
}
