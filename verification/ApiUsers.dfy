/** Private users share one directory and one index; their requests are rewritten so that they do not meet. */
module ApiUsers {
  import opened ByteStrings
  import opened Decimal
  import opened Paths
  import opened Api
  import opened ApiHandler

  // ---- Rewriting ----

  /** The first component of a target gets the user in front, unless there is none. */
  function Rewritten(url: string, user: string): string {
    if |url| <= 1 then url else url[..1] + user + "_" + url[1..]
  }

  /** A name of a user's: the user, an underscore, and what the user wrote. */
  function Mark(user: string): string {
    user + "_"
  }

  predicate IsUserName(user: string) {
    '/' !in user && '_' !in user
  }

  predicate IsUnder(p: Path, mark: string) {
    p != [] && mark <= p[0]
  }

  predicate IsOwned(t: Target, mark: string) {
    t.Target? && IsUnder(t.path, mark) && mark <= t.entity
  }

  lemma MarkEnds(user: string, s: string)
    requires IsUserName(user) && Mark(user) <= s
    ensures |user| < |s| && s[|user|] == '_' && user == s[..|user|]
    ensures forall i :: 0 <= i < |user| ==> s[i] != '_'
  {
    assert s[|user|] == Mark(user)[|user|];
    assert forall i :: 0 <= i < |user| ==> s[i] == user[i] && user[i] in user;
  }

  lemma MarksDiffer(user: string, other: string, s: string)
    requires IsUserName(user) && IsUserName(other) && Mark(user) <= s && Mark(other) <= s
    ensures user == other
  {
    MarkEnds(user, s);
    MarkEnds(other, s);
    assert |user| == |other|;
  }

  lemma SplitStart(mark: string, rest: string)
    requires '/' !in mark
    ensures mark <= Split(mark + rest)[0]
  {
    var s := mark + rest;
    FirstSlash(s);
    match Find(s, "/", 0)
    case None =>
    case Some(k) =>
      assert k >= |mark| by {
        assert forall i :: 0 <= i < |mark| ==> s[i] == mark[i] && mark[i] in mark;
      }
      assert s[..k][..|mark|] == mark;
  }

  lemma JoinedStart(path: Path)
    requires path != []
    ensures path[0] <= Joined(path)
  {
  }

  lemma NamingStart(path: Path, mark: string)
    requires path != [] && mark <= path[0]
    ensures IsOwned(Naming(path), mark)
  {
    JoinedStart(path);
    if |path| > 1 {
      assert Init(path)[0] == path[0];
      JoinedStart(Init(path));
    }
  }

  lemma RewrittenStart(url: string, user: string)
    requires |url| > 1 && url[0] == '/'
    ensures |WithoutSlash(Rewritten(url, user))| > |user| + 1
    ensures WithoutSlash(Rewritten(url, user))[1..] == Mark(user) + WithoutSlash(Rewritten(url, user))[|user| + 2..]
  {
    AfterFirst(Mark(user), url[1..]);
    assert url[..1] + user + "_" + url[1..] == "/" + (Mark(user) + url[1..]);
  }

  lemma AfterFirst(mark: string, rest: string)
    requires mark != "" && rest != ""
    ensures |WithoutSlash("/" + (mark + rest))| > |mark|
    ensures WithoutSlash("/" + (mark + rest))[1..] == mark + WithoutSlash("/" + (mark + rest))[|mark| + 1..]
  {
    var r := "/" + (mark + rest);
    assert Init(r) == "/" + (mark + Init(rest));
  }

  /** A rewritten target is within what the user owns, or names nothing. */
  lemma RewrittenIsOwned(url: string, user: string)
    requires IsUserName(user)
    ensures var t := TargetOf(Rewritten(url, user)); t.NoEntity? || IsOwned(t, Mark(user))
  {
    var r := Rewritten(url, user);
    if |url| > 1 && url[0] == '/' {
      RewrittenStart(url, user);
      SplitStart(Mark(user), WithoutSlash(r)[|user| + 2..]);
      NamingStart(Split(WithoutSlash(r)[1..]), Mark(user));
    } else if |url| > 1 {
      assert r[0] == url[0];
    }
  }

  // ---- What a user can see ----

  function SeenStore(store: Store, mark: string): Store {
    Store(set d | d in store.dirs && IsUnder(d, mark), map f | f in store.files && IsUnder(f, mark) :: store.files[f])
  }

  function SeenIndex(index: Index, mark: string): Index {
    map e | e in index && mark <= e :: index[e]
  }

  function Seen(st: State, mark: string): State {
    State(SeenStore(st.store, mark), SeenIndex(st.index, mark))
  }

  function SeenOutcome(outcome: Outcome, mark: string): Outcome {
    if outcome.Answer? then Answer(Seen(outcome.state, mark), outcome.response) else outcome
  }

  lemma SeenMade(store: Store, p: Path, mark: string)
    ensures SeenStore(Made(store, p), mark)
         == if IsUnder(p, mark) then Made(SeenStore(store, mark), p) else SeenStore(store, mark)
  {
  }

  lemma SeenWritten(store: Store, p: Path, body: string, mark: string)
    requires |p| > 1
    ensures SeenStore(Written(store, p, body), mark)
         == if IsUnder(p, mark) then Written(SeenStore(store, mark), p, body) else SeenStore(store, mark)
  {
    assert Init(p)[0] == p[0];
  }

  lemma SeenRemoved(store: Store, p: Path, mark: string)
    ensures SeenStore(Removed(store, p), mark)
         == if IsUnder(p, mark) then Removed(SeenStore(store, mark), p) else SeenStore(store, mark)
  {
  }

  lemma SeenIds(index: Index, e: string, id: int, mark: string)
    ensures SeenIndex(WithId(index, e, id), mark)
         == if mark <= e then WithId(SeenIndex(index, mark), e, id) else SeenIndex(index, mark)
    ensures SeenIndex(WithoutId(index, e, id), mark)
         == if mark <= e then WithoutId(SeenIndex(index, mark), e, id) else SeenIndex(index, mark)
    ensures SeenIndex(WithEntity(index, e), mark)
         == if mark <= e then WithEntity(SeenIndex(index, mark), e) else SeenIndex(index, mark)
  {
  }

  // ---- One request ----

  lemma SeenPost(st: State, t: Target, body: string, mark: string)
    requires t.Target? && t.path != []
    ensures IsOwned(t, mark) ==> Posted(Seen(st, mark), t, body) == SeenOutcome(Posted(st, t, body), mark)
    ensures !IsUnder(t.path, mark) && !(mark <= t.entity) && Posted(st, t, body).Answer? ==>
      Seen(Posted(st, t, body).state, mark) == Seen(st, mark)
  {
    SeenMade(st.store, t.path, mark);
    SeenIds(st.index, t.entity, 0, mark);
    var made := if Exists(st.store, t.path) then st else State(Made(st.store, t.path), WithEntity(st.index, t.entity));
    if |t.path| == 1 && t.entity in made.index {
      var id := NextId(made.index[t.entity]);
      SeenWritten(made.store, t.path + [IntText(id)], body, mark);
      SeenIds(made.index, t.entity, id, mark);
    }
  }

  lemma SeenGet(st: State, t: Target, mark: string)
    requires t.Target? && t.path != []
    ensures IsOwned(t, mark) ==> Got(Seen(st, mark), t) == SeenOutcome(Got(st, t), mark)
    ensures !IsUnder(t.path, mark) && !(mark <= t.entity) ==> Seen(Got(st, t).state, mark) == Seen(st, mark)
  {
    SeenIds(st.index, t.entity, t.id, mark);
  }

  lemma SeenPut(st: State, t: Target, body: string, mark: string)
    requires t.Target? && t.path != []
    ensures IsOwned(t, mark) ==> Put(Seen(st, mark), t, body) == SeenOutcome(Put(st, t, body), mark)
    ensures !IsUnder(t.path, mark) && !(mark <= t.entity) ==> Seen(Put(st, t, body).state, mark) == Seen(st, mark)
  {
    if |t.path| == 2 {
      var parent := Init(t.path);
      assert parent[0] == t.path[0];
      SeenMade(st.store, parent, mark);
      var store := if Exists(st.store, parent) then st.store else Made(st.store, parent);
      SeenWritten(store, t.path, body, mark);
      SeenIds(st.index, t.entity, t.id, mark);
    }
  }

  lemma SeenDelete(st: State, t: Target, mark: string)
    requires t.Target? && t.path != []
    ensures IsOwned(t, mark) ==> Deleted(Seen(st, mark), t) == SeenOutcome(Deleted(st, t), mark)
    ensures !IsUnder(t.path, mark) && !(mark <= t.entity) ==> Seen(Deleted(st, t).state, mark) == Seen(st, mark)
  {
    SeenRemoved(st.store, t.path, mark);
    SeenIds(st.index, t.entity, t.id, mark);
  }

  /** A request is answered from what its user can see, and changes only that. */
  lemma SeenServed(st: State, verb: string, t: Target, body: string, mark: string)
    requires t.Target? && t.path != []
    ensures IsOwned(t, mark) ==> Served(Seen(st, mark), verb, t, body) == SeenOutcome(Served(st, verb, t, body), mark)
    ensures !IsUnder(t.path, mark) && !(mark <= t.entity) && Served(st, verb, t, body).Answer? ==>
      Seen(Served(st, verb, t, body).state, mark) == Seen(st, mark)
  {
    if verb == "POST" {
      SeenPost(st, t, body, mark);
    } else if verb == "GET" {
      SeenGet(st, t, mark);
    } else if verb == "PUT" {
      SeenPut(st, t, body, mark);
    } else if verb == "DELETE" {
      SeenDelete(st, t, mark);
    }
  }

  // ---- Runs ----

  datatype Call = Call(user: string, req: Request)

  ghost function AnsweredTo(st: State, call: Call): Outcome {
    Answered(st, call.req.(target := Rewritten(call.req.target, call.user)))
  }

  lemma OwnCall(st: State, call: Call)
    requires IsUserName(call.user)
    ensures AnsweredTo(Seen(st, Mark(call.user)), call) == SeenOutcome(AnsweredTo(st, call), Mark(call.user))
  {
    RewrittenIsOwned(call.req.target, call.user);
    var t := TargetOf(Rewritten(call.req.target, call.user));
    if t.Target? {
      SeenServed(st, call.req.verb, t, call.req.body, Mark(call.user));
    }
  }

  lemma OthersCall(st: State, call: Call, user: string)
    requires IsUserName(call.user) && IsUserName(user) && call.user != user && AnsweredTo(st, call).Answer?
    ensures Seen(AnsweredTo(st, call).state, Mark(user)) == Seen(st, Mark(user))
  {
    RewrittenIsOwned(call.req.target, call.user);
    var t := TargetOf(Rewritten(call.req.target, call.user));
    if t.Target? {
      if Mark(user) <= t.path[0] {
        MarksDiffer(user, call.user, t.path[0]);
        assert false;
      }
      if Mark(user) <= t.entity {
        MarksDiffer(user, call.user, t.entity);
        assert false;
      }
      SeenServed(st, call.req.verb, t, call.req.body, Mark(user));
    }
  }

  ghost function RunCalls(st: State, calls: seq<Call>): History
    decreases |calls|
  {
    if calls == [] then Finished(st, [])
    else
      var first := AnsweredTo(st, calls[0]);
      if !first.Answer? then Stopped(first)
      else
        match RunCalls(first.state, calls[1..])
        case Finished(st', more) => Finished(st', [first.response] + more)
        case Stopped(outcome) => Stopped(outcome)
  }

  function CallsOf(user: string, calls: seq<Call>): seq<Call> {
    if calls == [] then []
    else if calls[0].user == user then [calls[0]] + CallsOf(user, calls[1..])
    else CallsOf(user, calls[1..])
  }

  function ResponsesTo(user: string, calls: seq<Call>, responses: seq<Response>): seq<Response>
    requires |calls| == |responses|
  {
    if calls == [] then []
    else if calls[0].user == user then [responses[0]] + ResponsesTo(user, calls[1..], responses[1..])
    else ResponsesTo(user, calls[1..], responses[1..])
  }

  predicate AllUserNames(calls: seq<Call>) {
    forall i :: 0 <= i < |calls| ==> IsUserName(calls[i].user)
  }

  lemma {:induction false} OneResponseEach(st: State, calls: seq<Call>)
    requires RunCalls(st, calls).Finished?
    ensures |RunCalls(st, calls).responses| == |calls|
    decreases |calls|
  {
    if calls != [] {
      OneResponseEach(AnsweredTo(st, calls[0]).state, calls[1..]);
    }
  }

  /**
   * Whatever other users ask in between, a user gets the responses, and in the end sees the files and the index, that
   * the user's own requests alone give, from any state in which the user sees the same.
   */
  lemma {:induction false} UsersDoNotMeet(st: State, alone: State, calls: seq<Call>, user: string)
    requires AllUserNames(calls) && IsUserName(user) && RunCalls(st, calls).Finished?
    requires Seen(st, Mark(user)) == Seen(alone, Mark(user))
    ensures |RunCalls(st, calls).responses| == |calls|
    ensures var own := RunCalls(alone, CallsOf(user, calls));
      && own.Finished?
      && own.responses == ResponsesTo(user, calls, RunCalls(st, calls).responses)
      && Seen(own.state, Mark(user)) == Seen(RunCalls(st, calls).state, Mark(user))
    decreases |calls|
  {
    OneResponseEach(st, calls);
    if calls != [] {
      var call, st1 := calls[0], AnsweredTo(st, calls[0]).state;
      var responses := RunCalls(st, calls).responses;
      assert responses[1..] == RunCalls(st1, calls[1..]).responses;
      if call.user == user {
        OwnCall(st, call);
        OwnCall(alone, call);
        UsersDoNotMeet(st1, AnsweredTo(alone, call).state, calls[1..], user);
        assert ([call] + CallsOf(user, calls[1..]))[1..] == CallsOf(user, calls[1..]);
      } else {
        OthersCall(st, call, user);
        UsersDoNotMeet(st1, alone, calls[1..], user);
      }
    }
  }

  // ---- The secure handler ----

  datatype Auth = Private(user: string) | Public | Denied

  const NO_TOKEN := Response(401, "No token found")
  const INVALID_TOKEN := Response(401, "Invalid token")

  /** The token in an `Authorization` header: what follows the seven characters of `Bearer `. */
  function TokenIn(authorization: string): string {
    if |authorization| > 7 then authorization[7..] else ""
  }

  /** Private and public users have files of their own each, but one index. */
  class SecureRequestHandlerApi {
    const prefixLength: nat
    const authorizer: string -> Auth
    const priv: RequestHandlerApi
    const pub: RequestHandlerApi

    constructor (prefixLength: nat, authorizer: string -> Auth, priv: RequestHandlerApi, pub: RequestHandlerApi)
      requires priv.prefixLength == pub.prefixLength == prefixLength
      requires priv.files != pub.files && priv.entityIds == pub.entityIds
      ensures Valid() && this.authorizer == authorizer && this.priv == priv && this.pub == pub
    {
      this.prefixLength := prefixLength;
      this.authorizer := authorizer;
      this.priv := priv;
      this.pub := pub;
    }

    ghost predicate Valid() {
      && priv.prefixLength == pub.prefixLength == prefixLength
      && priv.files != pub.files
      && priv.entityIds == pub.entityIds
    }

    /** The outcome of a request for the handler the token leads to; without one, nothing changes. */
    ghost function Secured(authorization: string, req: Request): Outcome
      requires prefixLength <= |req.target|
      reads priv.entityIds, priv.files, pub.entityIds, pub.files
    {
      var token, url := TokenIn(authorization), req.target[prefixLength..];
      if token == "" then Answer(priv.Now(), NO_TOKEN)
      else match authorizer(token)
        case Private(user) => AnsweredTo(priv.Now(), Call(user, req.(target := url)))
        case Public => Answered(pub.Now(), req.(target := url))
        case Denied => Answer(priv.Now(), INVALID_TOKEN)
    }

    /** Whether the token leads to the files of the public users. */
    predicate IsPublic(authorization: string) {
      TokenIn(authorization) != "" && authorizer(TokenIn(authorization)).Public?
    }

    method GetPrivate(user: string, req: Request) returns (ok: bool, response: Response)
      requires Valid() && prefixLength <= |req.target|
      requires AnsweredTo(priv.Now(), Call(user, req.(target := req.target[prefixLength..]))).Answer?
      modifies priv.entityIds, priv.files
      ensures Answer(priv.Now(), response)
           == old(AnsweredTo(priv.Now(), Call(user, req.(target := req.target[prefixLength..]))))
      ensures var target := if |req.target| <= prefixLength + 1 then req.target
                            else req.target[..prefixLength + 1] + user + "_" + req.target[prefixLength + 1..];
        Answer(priv.Now(), response) == old(Answered(priv.Now(), req.(target := target[prefixLength..])))
    {
      hide Answered;
      var target := req.target;
      if |target| > prefixLength + 1 {
        target := target[..prefixLength + 1] + user + "_" + target[prefixLength + 1..];
      }
      CutRewritten(req.target, user, prefixLength);
      ok, response := priv.GetResponse(req.(target := target));
    }

    method GetResponse(authorization: string, req: Request) returns (ok: bool, response: Response)
      requires Valid() && prefixLength <= |req.target|
      requires Secured(authorization, req).Answer?
      modifies priv.entityIds, priv.files, pub.files
      ensures Answer(if IsPublic(authorization) then pub.Now() else priv.Now(), response)
           == old(Secured(authorization, req))
      ensures if IsPublic(authorization) then priv.files.Tree() == old(priv.files.Tree())
              else pub.files.Tree() == old(pub.files.Tree())
      ensures |authorization| <= 7 ==>
        && response == Response(401, "No token found")
        && priv.Now() == old(priv.Now()) && pub.Now() == old(pub.Now())
      ensures |authorization| > 7 ==> match authorizer(authorization[7..])
        case Denied =>
          && response == Response(401, "Invalid token")
          && priv.Now() == old(priv.Now()) && pub.Now() == old(pub.Now())
        case Private(user) =>
          var target := if |req.target| <= prefixLength + 1 then req.target
                        else req.target[..prefixLength + 1] + user + "_" + req.target[prefixLength + 1..];
          && Answer(priv.Now(), response) == old(Answered(priv.Now(), req.(target := target[prefixLength..])))
          && pub.files.Tree() == old(pub.files.Tree())
        case Public =>
          && Answer(pub.Now(), response) == old(Answered(pub.Now(), req.(target := req.target[prefixLength..])))
          && priv.files.Tree() == old(priv.files.Tree())
      ensures |authorization| <= 7 || authorizer(authorization[7..]).Denied? ==> ok
    {
      hide Answered, AnsweredTo;
      var token := "";
      if |authorization| > 7 {
        token := authorization[7..];
      }
      if token == "" {
        return true, NO_TOKEN;
      }
      match authorizer(token)
      case Private(user) => ok, response := GetPrivate(user, req);
      case Public => ok, response := pub.GetResponse(req);
      case Denied => return true, INVALID_TOKEN;
    }
  }

  /** Rewriting behind the location is rewriting what is left when the location is cut off. */
  lemma CutRewritten(target: string, user: string, prefix: nat)
    requires prefix <= |target|
    ensures Rewritten(target[prefix..], user) ==
      if |target| > prefix + 1 then (target[..prefix + 1] + user + "_" + target[prefix + 1..])[prefix..]
      else target[prefix..]
  {
    if |target| > prefix + 1 {
      assert target[prefix..][..1] == target[..prefix + 1][prefix..];
      assert target[prefix..][1..] == target[prefix + 1..];
    }
  }
}
