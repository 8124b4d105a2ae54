/** The create, read, update and delete interface: its files, its index of ids, and what a request does to them. */
module Api {
  import opened ByteStrings
  import opened Decimal
  import opened Paths

  // ---- Files ----

  datatype Store = Store(dirs: set<Path>, files: map<Path, string>)

  predicate Exists(store: Store, p: Path) {
    p in store.dirs || p in store.files
  }

  function Made(store: Store, p: Path): Store {
    store.(dirs := store.dirs + {p})
  }

  /** Writing fails, without a word, if there is no directory to write to, or if there is one by that name. */
  function Written(store: Store, p: Path, body: string): Store
    requires p != []
  {
    if Init(p) in store.dirs && p !in store.dirs then store.(files := store.files[p := body]) else store
  }

  function Removed(store: Store, p: Path): Store {
    store.(files := store.files - {p})
  }

  // ---- The index ----

  type Index = map<string, set<int>>

  function WithId(index: Index, entity: string, id: int): Index {
    index[entity := (if entity in index then index[entity] else {}) + {id}]
  }

  function WithoutId(index: Index, entity: string, id: int): Index {
    if entity in index then index[entity := index[entity] - {id}] else index
  }

  function WithEntity(index: Index, entity: string): Index {
    if entity in index then index else index[entity := {}]
  }

  const INT_MAX := 0x7FFF_FFFF

  /** The least number from `id` on that is not in `ids`: by counting, it is found after at most `|ids|` steps. */
  function FreeFrom(ids: set<int>, id: int): (r: int)
    ensures id <= r <= id + |ids| && r !in ids
    ensures forall i :: id <= i < r ==> i in ids
    decreases |ids|
  {
    if id in ids then
      var r := FreeFrom(ids - {id}, id + 1);
      assert forall i :: id <= i < r ==> i in ids by {
        forall i | id <= i < r ensures i in ids {
          assert i == id || i in ids - {id};
        }
      }
      r
    else id
  }

  function NextId(ids: set<int>): (r: int)
    ensures 1 <= r <= |ids| + 1 && r !in ids
    ensures forall i :: 1 <= i < r ==> i in ids
  {
    FreeFrom(ids, 1)
  }

  predicate IsLeastId(ids: set<int>, least: int) {
    least in ids && forall i :: i in ids ==> least <= i
  }

  lemma SomeElement<T>(s: set<T>) returns (x: T)
    requires s != {}
    ensures x in s
  {
    x :| x in s;
  }

  lemma {:induction false} LeastIdExists(ids: set<int>)
    requires ids != {}
    ensures exists least :: IsLeastId(ids, least)
    decreases |ids|
  {
    var x := SomeElement(ids);
    if ids == {x} {
      assert IsLeastId(ids, x);
    } else {
      LeastIdExists(ids - {x});
      var y :| IsLeastId(ids - {x}, y);
      assert forall i :: i in ids ==> i == x || i in ids - {x};
      assert IsLeastId(ids, if x < y then x else y);
    }
  }

  lemma LeastInFront(ids: set<int>, least: int, more: seq<int>)
    requires IsLeastId(ids, least) && |more| == |ids - {least}|
    requires forall i :: i in more <==> i in ids - {least}
    requires forall i, j :: 0 <= i < j < |more| ==> more[i] < more[j]
    ensures |[least] + more| == |ids| && forall i :: i in [least] + more <==> i in ids
    ensures forall i, j :: 0 <= i < j < |[least] + more| ==> ([least] + more)[i] < ([least] + more)[j]
  {
    forall j | 0 <= j < |more| ensures least < more[j] {
      assert more[j] in more;
    }
  }

  /** The ids of a set in the order in which `std::set` gives them. */
  ghost function Ascending(ids: set<int>): (r: seq<int>)
    ensures |r| == |ids|
    ensures forall i :: i in r <==> i in ids
    ensures forall i, j :: 0 <= i < j < |r| ==> r[i] < r[j]
    decreases |ids|
  {
    if ids == {} then []
    else
      LeastIdExists(ids);
      var least :| IsLeastId(ids, least);
      LeastInFront(ids, least, Ascending(ids - {least}));
      [least] + Ascending(ids - {least})
  }

  // ---- Targets ----

  datatype Target = NoEntity | Target(path: Path, id: int, entity: string)

  /** One slash at the end of a target is ignored. */
  function WithoutSlash(url: string): string {
    if url != "" && Last(url) == '/' then Init(url) else url
  }

  /**
   * The id and the entity a path names. The last component is an id if `stoi` makes a number of it; if it is the only
   * one, it is the entity as well.
   */
  function Naming(path: Path): Target
    requires path != []
  {
    match Stoi(Last(path))
    case Some(id) => Target(path, id, if |path| == 1 then path[0] else Joined(Init(path)))
    case None => Target(path, 0, Joined(path))
  }

  /** What a target means once the location is cut off. */
  function TargetOf(url: string): (t: Target)
    ensures t.Target? ==> t.path != [] && t == Naming(t.path) && forall i :: 0 <= i < |t.path| ==> '/' !in t.path[i]
  {
    if url == "" || url[0] != '/' || WithoutSlash(url) == "" then NoEntity
    else Naming(Split(WithoutSlash(url)[1..]))
  }

  /** Components the file system takes for what they are. */
  predicate IsPlain(name: string) {
    name != "" && name != "." && name != ".."
  }

  predicate IsPlainPath(p: Path) {
    forall i :: 0 <= i < |p| ==> IsPlain(p[i])
  }

  // ---- Requests ----

  datatype Request = Request(verb: string, target: string, body: string)

  datatype Response = Response(status: nat, body: string)

  datatype State = State(store: Store, index: Index)

  /**
   * `Undefined`: the original dereferences the end of a map, or overflows an id.
   * `Unmodelled`: the path has a component that is empty, `.` or `..`.
   */
  datatype Outcome = Answer(state: State, response: Response) | Undefined | Unmodelled

  const NOT_FOUND := Response(404, "<html><h1>404 Not Found</h1></html>")
  const BAD_REQUEST := Response(400, "<html><h1>400 Bad Request</h1></html>")
  const NOT_ALLOWED := Response(405, "<html><h1>405 Not Allowed</h1></html>")

  function Commas(ids: seq<int>): string {
    if ids == [] then "" else Commas(Init(ids)) + IntText(Last(ids)) + ","
  }

  /** The list of ids in a response, without its last character but one. */
  ghost function Listing(ids: set<int>): string {
    Init("[" + Commas(Ascending(ids))) + "]"
  }

  function Posted(st: State, t: Target, body: string): Outcome
    requires t.Target? && t.path != []
  {
    if |t.path| != 1 then Answer(st, BAD_REQUEST)
    else
      var st1 := if Exists(st.store, t.path) then st
                 else State(Made(st.store, t.path), WithEntity(st.index, t.entity));
      if t.entity !in st1.index then Undefined
      else
        var id := NextId(st1.index[t.entity]);
        if id > INT_MAX then Undefined
        else
          Answer(State(Written(st1.store, t.path + [IntText(id)], body), WithId(st1.index, t.entity, id)),
                 Response(201, "{\"id\": " + IntText(id) + "}"))
  }

  ghost function Got(st: State, t: Target): Outcome
    requires t.Target?
  {
    if t.id == 0 then
      if !Exists(st.store, t.path) then Answer(st, NOT_FOUND)
      else
        var body := if t.entity in st.index then Listing(st.index[t.entity])
                    else "Entity: " + t.entity + " is currently empty!";
        Answer(st, Response(200, body))
    else if t.path !in st.store.files then
      Answer(st.(index := WithoutId(st.index, t.entity, t.id)), NOT_FOUND)
    else
      Answer(st.(index := WithId(st.index, t.entity, t.id)), Response(200, st.store.files[t.path]))
  }

  function Put(st: State, t: Target, body: string): Outcome
    requires t.Target?
  {
    if t.id == 0 || |t.path| != 2 then Answer(st, BAD_REQUEST)
    else
      var store := if Exists(st.store, Init(t.path)) then st.store else Made(st.store, Init(t.path));
      Answer(State(Written(store, t.path, body), WithId(st.index, t.entity, t.id)), Response(200, ""))
  }

  function Deleted(st: State, t: Target): Outcome
    requires t.Target?
  {
    if t.path !in st.store.files then Answer(st, NOT_FOUND)
    else
      Answer(State(Removed(st.store, t.path), WithoutId(st.index, t.entity, t.id)), Response(200, ""))
  }

  predicate IsUnsupported(verb: string) {
    verb == "HEAD" || verb == "CONNECT" || verb == "OPTIONS" || verb == "TRACE" || verb == "PATCH"
  }

  ghost function Served(st: State, verb: string, t: Target, body: string): Outcome
    requires t.Target? && t.path != []
  {
    if verb == "POST" then Posted(st, t, body)
    else if verb == "GET" then Got(st, t)
    else if verb == "PUT" then Put(st, t, body)
    else if verb == "DELETE" then Deleted(st, t)
    else Answer(st, if IsUnsupported(verb) then NOT_ALLOWED else BAD_REQUEST)
  }

  /** A request, answered in one step; its target is what follows the location. */
  ghost function Answered(st: State, req: Request): Outcome {
    var t := TargetOf(req.target);
    if t.NoEntity? then Answer(st, NOT_FOUND)
    else if !IsPlainPath(t.path) then Unmodelled
    else Served(st, req.verb, t, req.body)
  }

  /** A run of requests, with all responses; it stops when a request has no answer. */
  datatype History = Finished(state: State, responses: seq<Response>) | Stopped(outcome: Outcome)

  ghost function Run(st: State, reqs: seq<Request>): History
    decreases |reqs|
  {
    if reqs == [] then Finished(st, [])
    else
      match Answered(st, reqs[0])
      case Answer(st1, response) =>
        (match Run(st1, reqs[1..])
         case Finished(st2, more) => Finished(st2, [response] + more)
         case Stopped(outcome) => Stopped(outcome))
      case Undefined => Stopped(Undefined)
      case Unmodelled => Stopped(Unmodelled)
  }
}
