/** The interface as its clients see it: a store of bodies under entities and ids, without files or an index. */
module ApiStore {
  import opened ByteStrings
  import opened Decimal
  import opened Paths
  import opened Api
  import opened ApiLaws

  datatype Item = Item(entity: string, id: int)

  datatype Shop = Shop(entities: set<string>, items: map<Item, string>)

  const MISSING := Response(404, "<html><h1>404 Not Found</h1></html>")
  const REFUSED := Response(400, "<html><h1>400 Bad Request</h1></html>")
  const UNSUPPORTED := Response(405, "<html><h1>405 Not Allowed</h1></html>")

  function IdsOf(shop: Shop, e: string): set<int> {
    set item | item in shop.items && item.entity == e :: item.id
  }

  /** What a target asks for. */
  datatype Subject = Entity(entity: string) | TheItem(item: Item) | Nothing

  function SubjectOf(t: Target): Subject {
    if t.NoEntity? then Nothing
    else if |t.path| == 1 then Entity(t.path[0])
    else if |t.path| == 2 && IsIdName(t.path[1]) then TheItem(Item(t.path[0], t.id))
    else Nothing
  }

  function CommaJoined(ids: seq<int>): string {
    if ids == [] then "" else if |ids| == 1 then IntText(ids[0]) else IntText(ids[0]) + "," + CommaJoined(ids[1..])
  }

  /** The list a client gets; that of no ids lacks the opening bracket. */
  ghost function ListText(ids: set<int>): string {
    if ids == {} then "]" else "[" + CommaJoined(Ascending(ids)) + "]"
  }

  function Create(shop: Shop, what: Subject, body: string): (Shop, Response) {
    match what
    case Entity(e) =>
      var id := NextId(IdsOf(shop, e));
      (Shop(shop.entities + {e}, shop.items[Item(e, id) := body]), Response(201, "{\"id\": " + IntText(id) + "}"))
    case _ => (shop, REFUSED)
  }

  ghost function Read(shop: Shop, what: Subject): Response {
    match what
    case Entity(e) => if e in shop.entities then Response(200, ListText(IdsOf(shop, e))) else MISSING
    case TheItem(item) => if item in shop.items then Response(200, shop.items[item]) else MISSING
    case Nothing => MISSING
  }

  function Update(shop: Shop, what: Subject, body: string): (Shop, Response) {
    match what
    case TheItem(item) => (Shop(shop.entities + {item.entity}, shop.items[item := body]), Response(200, ""))
    case _ => (shop, REFUSED)
  }

  function Delete(shop: Shop, what: Subject): (Shop, Response) {
    if what.TheItem? && what.item in shop.items then (shop.(items := shop.items - {what.item}), Response(200, ""))
    else (shop, MISSING)
  }

  ghost function Serve(shop: Shop, verb: string, what: Subject, body: string): (r: (Shop, Response)) {
    if verb == "POST" then Create(shop, what, body)
    else if verb == "GET" then (shop, Read(shop, what))
    else if verb == "PUT" then Update(shop, what, body)
    else if verb == "DELETE" then Delete(shop, what)
    else (shop, if verb in ["HEAD", "CONNECT", "OPTIONS", "TRACE", "PATCH"] then UNSUPPORTED else REFUSED)
  }

  ghost function ServeAll(shop: Shop, reqs: seq<Request>): (r: (Shop, seq<Response>))
    decreases |reqs|
  {
    if reqs == [] then (shop, [])
    else
      var t := TargetOf(reqs[0].target);
      var first := if t.NoEntity? then (shop, MISSING) else Serve(shop, reqs[0].verb, SubjectOf(t), reqs[0].body);
      var rest := ServeAll(first.0, reqs[1..]);
      (rest.0, [first.1] + rest.1)
  }

  // ---- What a list looks like ----

  lemma {:induction false} CommasAre(ids: seq<int>)
    requires ids != []
    ensures Commas(ids) == CommaJoined(ids) + ","
  {
    hide IntText;
    if |ids| == 1 {
      assert Init(ids) == [] && Commas([]) == "";
      assert "" + IntText(ids[0]) == IntText(ids[0]);
    } else {
      CommasAre(Init(ids));
      JoinedAppend(Init(ids), Last(ids));
      assert ids == Init(ids) + [Last(ids)];
    }
  }

  lemma {:induction false} JoinedAppend(ids: seq<int>, id: int)
    requires ids != []
    ensures CommaJoined(ids + [id]) == CommaJoined(ids) + "," + IntText(id)
  {
    if |ids| == 1 {
      assert (ids + [id])[1..] == [id];
    } else {
      assert (ids + [id])[1..] == ids[1..] + [id];
      JoinedAppend(ids[1..], id);
      assert IntText(ids[0]) + "," + (CommaJoined(ids[1..]) + "," + IntText(id))
          == IntText(ids[0]) + "," + CommaJoined(ids[1..]) + "," + IntText(id);
    }
  }

  lemma CutComma(s: string)
    ensures Init("[" + (s + ",")) == "[" + s
  {
  }

  /** The list is its ids in ascending order, with commas between them, in brackets, unless there are none. */
  lemma ListingIsListText(ids: set<int>)
    ensures Listing(ids) == ListText(ids)
  {
    if ids == {} {
      assert Init("[" + Commas([])) == "";
      assert "" + "]" == "]";
    } else {
      CommasAre(Ascending(ids));
      CutComma(CommaJoined(Ascending(ids)));
    }
  }

  // ---- Refinement ----

  predicate Agree(files: map<Path, string>, items: map<Item, string>, e: string, i: int) {
    && (Item(e, i) in items <==> [e, IntText(i)] in files)
    && (Item(e, i) in items ==> items[Item(e, i)] == files[[e, IntText(i)]])
  }

  /** The files hold what the store holds. */
  ghost predicate Represents(st: State, shop: Shop) {
    && (forall e :: e in shop.entities <==> [e] in st.store.dirs)
    && (forall e, i :: Agree(st.store.files, shop.items, e, i))
  }

  lemma SameSet(x: set<int>, y: set<int>)
    requires forall i :: i in x <==> i in y
    ensures x == y
  {
    if x != y {
      var i := SomeElement((x - y) + (y - x));
      assert false;
    }
  }

  lemma SameIds(st: State, shop: Shop, e: string)
    requires Consistent(st) && Represents(st, shop)
    ensures IdsOf(shop, e) == if e in st.index then st.index[e] else {}
  {
    forall i ensures i in IdsOf(shop, e) <==> IsStored(st.store, e, i) {
      assert Agree(st.store.files, shop.items, e, i);
      assert i in IdsOf(shop, e) <==> Item(e, i) in shop.items;
    }
    if e !in st.index {
      forall i ensures !IsStored(st.store, e, i) {
        assert [e, IntText(i)][0] == e;
      }
    }
    SameSet(IdsOf(shop, e), if e in st.index then st.index[e] else {});
  }

  lemma ItemPaths(x: string, i: int, y: string, j: int)
    ensures [x, IntText(i)] == [y, IntText(j)] <==> x == y && i == j
  {
    if [x, IntText(i)] == [y, IntText(j)] {
      assert [x, IntText(i)][0] == [y, IntText(j)][0] && [x, IntText(i)][1] == [y, IntText(j)][1];
      IntTextInjective(i, j);
    }
  }

  lemma ItemWritten(st: State, shop: Shop, e: string, id: int, body: string, index: Index)
    requires Represents(st, shop)
    ensures Represents(State(Store(st.store.dirs + {[e]}, st.store.files[[e, IntText(id)] := body]), index),
                       Shop(shop.entities + {e}, shop.items[Item(e, id) := body]))
  {
    var files := st.store.files[[e, IntText(id)] := body];
    var items := shop.items[Item(e, id) := body];
    forall x, i ensures Agree(files, items, x, i) {
      ItemPaths(x, i, e, id);
      assert Agree(st.store.files, shop.items, x, i);
    }
    var entities, dirs := shop.entities + {e}, st.store.dirs + {[e]};
    forall x ensures x in entities <==> [x] in dirs {
      assert [x] == [e] <==> [x][0] == [e][0];
    }
  }

  lemma ItemRemoved(st: State, shop: Shop, e: string, id: int, index: Index)
    requires Represents(st, shop)
    ensures Represents(State(Removed(st.store, [e, IntText(id)]), index), shop.(items := shop.items - {Item(e, id)}))
  {
    var files, items := st.store.files - {[e, IntText(id)]}, shop.items - {Item(e, id)};
    forall x, i ensures Agree(files, items, x, i) {
      ItemPaths(x, i, e, id);
      assert Agree(st.store.files, shop.items, x, i);
    }
  }

  /** `outcome` is what the store answers, and leaves files that hold what the store holds then. */
  ghost predicate Matches(outcome: Outcome, served: (Shop, Response)) {
    outcome.Answer? ==> outcome.response == served.1 && Represents(outcome.state, served.0)
  }

  /** The state after an item has been written and its entity made a directory, whether or not it was one. */
  lemma WrittenIn(st: State, e: string, id: int, body: string)
    requires TreeOk(st.store)
    ensures var made := if Exists(st.store, [e]) then st.store else Made(st.store, [e]);
      Written(made, [e, IntText(id)], body)
        == Store(st.store.dirs + {[e]}, st.store.files[[e, IntText(id)] := body])
  {
    var f := [e, IntText(id)];
    assert Init(f) == [e] && f !in st.store.dirs;
    if [e] in st.store.dirs {
      assert st.store.dirs + {[e]} == st.store.dirs;
    }
  }

  lemma PostToEntity(st: State, shop: Shop, e: string, body: string)
    requires Consistent(st) && Represents(st, shop)
    ensures Matches(Posted(st, Naming([e]), body), Create(shop, Entity(e), body))
  {
    PostedTo(st, e, body);
    SameIds(st, shop, e);
    assert Exists(st.store, [e]) <==> e in st.index;
    var id := NextId(IdsOf(shop, e));
    WrittenIn(st, e, id, body);
    ItemWritten(st, shop, e, id, body, WithId(WithEntity(st.index, e), e, id));
  }

  lemma PostMatches(st: State, shop: Shop, path: Path, body: string)
    requires Consistent(st) && Represents(st, shop) && path != [] && NoSlashes(path)
    ensures Matches(Posted(st, Naming(path), body), Create(shop, SubjectOf(Naming(path)), body))
  {
    if |path| == 1 {
      assert path == [path[0]];
      PostToEntity(st, shop, path[0], body);
    }
  }

  lemma ListMatches(st: State, shop: Shop, e: string)
    requires Consistent(st) && Represents(st, shop)
    ensures Matches(Got(st, Target([e], 0, e)), (shop, Read(shop, Entity(e))))
  {
    hide IntText, Listing, ListText;
    SameIds(st, shop, e);
    ListingIsListText(IdsOf(shop, e));
    assert Exists(st.store, [e]) <==> e in st.index;
  }

  lemma ItemMatches(st: State, shop: Shop, e: string, id: int)
    requires Represents(st, shop) && id != 0
    ensures Matches(Got(st, Target([e, IntText(id)], id, e)), (shop, Read(shop, TheItem(Item(e, id)))))
  {
    hide IntText, Listing, ListText;
    assert Agree(st.store.files, shop.items, e, id);
  }

  lemma GetMatches(st: State, shop: Shop, path: Path)
    requires Consistent(st) && Represents(st, shop) && path != [] && NoSlashes(path) && IsClean(Naming(path))
    ensures Matches(Got(st, Naming(path)), (shop, Read(shop, SubjectOf(Naming(path)))))
  {
    hide Stoi, Listing, ListText, IntText;
    if |path| == 1 {
      assert path == [path[0]];
      ListMatches(st, shop, path[0]);
    } else if |path| == 2 {
      IdNames(path);
      if IsIdName(path[1]) {
        ItemMatches(st, shop, path[0], Naming(path).id);
      }
    }
  }

  lemma PutItemMatches(st: State, shop: Shop, e: string, id: int, body: string)
    requires Consistent(st) && Represents(st, shop) && id != 0
    ensures Matches(Put(st, Target([e, IntText(id)], id, e), body), Update(shop, TheItem(Item(e, id)), body))
  {
    assert Init([e, IntText(id)]) == [e];
    WrittenIn(st, e, id, body);
    ItemWritten(st, shop, e, id, body, WithId(st.index, e, id));
  }

  lemma PutMatches(st: State, shop: Shop, path: Path, body: string)
    requires Consistent(st) && Represents(st, shop) && path != [] && NoSlashes(path) && IsClean(Naming(path))
    ensures Matches(Put(st, Naming(path), body), Update(shop, SubjectOf(Naming(path)), body))
  {
    if |path| == 2 {
      IdNames(path);
      if IsIdName(path[1]) {
        PutItemMatches(st, shop, path[0], Naming(path).id, body);
      }
    }
  }

  lemma DeleteMatches(st: State, shop: Shop, path: Path)
    requires Consistent(st) && Represents(st, shop) && path != [] && NoSlashes(path) && IsClean(Naming(path))
    ensures Matches(Deleted(st, Naming(path)), Delete(shop, SubjectOf(Naming(path))))
  {
    var t := Naming(path);
    if |path| == 2 {
      IdNames(path);
      assert Agree(st.store.files, shop.items, path[0], t.id);
      if path in st.store.files {
        ItemRemoved(st, shop, path[0], t.id, WithoutId(st.index, path[0], t.id));
      }
    }
  }

  lemma OtherVerbsMatch(st: State, shop: Shop, verb: string, t: Target, body: string)
    requires Represents(st, shop) && t.Target? && t.path != [] && verb !in ["POST", "GET", "PUT", "DELETE"]
    ensures Matches(Served(st, verb, t, body), Serve(shop, verb, SubjectOf(t), body))
  {
    hide Represents;
  }

  /** Every clean request is answered as the store answers it. */
  lemma ServedMatches(st: State, shop: Shop, verb: string, path: Path, body: string)
    requires Consistent(st) && Represents(st, shop) && path != [] && NoSlashes(path) && IsClean(Naming(path))
    ensures Matches(Served(st, verb, Naming(path), body), Serve(shop, verb, SubjectOf(Naming(path)), body))
  {
    hide Matches, Represents, Consistent, Posted, Got, Put, Deleted, Create, Read, Update, Delete, SubjectOf, IsClean;
    hide Stoi, Joined;
    if verb == "POST" {
      PostMatches(st, shop, path, body);
    } else if verb == "GET" {
      GetMatches(st, shop, path);
    } else if verb == "PUT" {
      PutMatches(st, shop, path, body);
    } else if verb == "DELETE" {
      DeleteMatches(st, shop, path);
    } else {
      OtherVerbsMatch(st, shop, verb, Naming(path), body);
    }
  }

  /** Over whole runs, the files and the index give the responses of the store, and hold what it holds in the end. */
  lemma {:induction false} RunRefines(st: State, shop: Shop, reqs: seq<Request>)
    requires Consistent(st) && Represents(st, shop) && AllClean(reqs) && Run(st, reqs).Finished?
    ensures Run(st, reqs).responses == ServeAll(shop, reqs).1
    ensures Represents(Run(st, reqs).state, ServeAll(shop, reqs).0)
    decreases |reqs|
  {
    hide Served, Serve, SubjectOf, TargetOf, Represents, Consistent;
    if reqs != [] {
      var req, t := reqs[0], TargetOf(reqs[0].target);
      CleanStep(st, req);
      var first := if t.NoEntity? then (shop, MISSING) else Serve(shop, req.verb, SubjectOf(t), req.body);
      if t.Target? {
        ServedMatches(st, shop, req.verb, t.path, req.body);
      }
      RunRefines(Answered(st, req).state, first.0, reqs[1..]);
    }
  }
}
