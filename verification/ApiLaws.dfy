/** What requests keep of the agreement between the index and the files. */
module ApiLaws {
  import opened ByteStrings
  import opened Decimal
  import opened Paths
  import opened Api

  // ---- Targets ----

  lemma IntTextHasNoSlash(i: int)
    ensures '/' !in IntText(i)
  {
    assert AllDigits(Text(if i < 0 then -i else i));
  }

  lemma SlashesCut(s: string)
    ensures WithoutSlash("/" + s + "/") == "/" + s && ("/" + s)[1..] == s
    ensures s != "" && Last(s) != '/' ==> WithoutSlash("/" + s) == "/" + s
    ensures ("/" + s)[0] == '/' && ("/" + s + "/")[0] == '/'
  {
    assert s != "" ==> Last("/" + s) == Last(s);
    assert Init("/" + s + "/") == "/" + s;
  }

  lemma NamingOfItem(entity: string, id: int)
    requires InInt32(id)
    ensures Naming([entity, IntText(id)]) == Target([entity, IntText(id)], id, entity)
  {
    var path := [entity, IntText(id)];
    StoiOfText(id, []);
    assert IntText(id) + [] == IntText(id);
    assert Init(path) == [entity] && Last(path) == IntText(id);
  }

  /** The target of an entity and an id, with or without a slash at the end, is understood as exactly these. */
  lemma TargetOfItem(entity: string, id: int)
    requires '/' !in entity && InInt32(id)
    ensures TargetOf("/" + (entity + "/" + IntText(id))) == Target([entity, IntText(id)], id, entity)
    ensures TargetOf("/" + (entity + "/" + IntText(id)) + "/") == Target([entity, IntText(id)], id, entity)
  {
    var name := IntText(id);
    IntTextHasNoSlash(id);
    assert Last(entity + "/" + name) == Last(name) && Last(name) in name;
    SlashesCut(entity + "/" + name);
    SplitInTwo(entity, name);
    NamingOfItem(entity, id);
  }

  /** A target names nothing exactly if it is empty, does not start with a slash, or is just a slash. */
  lemma NoTarget(url: string)
    ensures TargetOf(url) == NoEntity <==> url == "" || url[0] != '/' || url == "/"
  {
    if url == "/" {
      assert Init(url) == "";
    } else if url != "" {
      assert WithoutSlash(url) != "";
    }
  }

  /** One component is the entity, and the id if it starts with a number; a slash behind it makes no difference. */
  lemma TargetOfOne(name: string)
    requires '/' !in name
    ensures TargetOf("/" + name + "/") == Target([name], if Stoi(name).Some? then Stoi(name).value else 0, name)
    ensures name != "" ==> TargetOf("/" + name) == TargetOf("/" + name + "/")
  {
    hide Stoi, Split, Joined;
    SlashesCut(name);
    NoSlashSplit(name);
    NamingOfOne(name);
  }

  /** The last of several components is the id, and those in front of it the entity, if it starts with a number. */
  lemma TargetOfMore(front: string, name: string)
    requires '/' !in name
    ensures TargetOf("/" + (front + "/" + name) + "/")
         == match Stoi(name)
            case Some(id) => Target(Split(front) + [name], id, front)
            case None => Target(Split(front) + [name], 0, front + "/" + name)
    ensures name != "" ==> TargetOf("/" + (front + "/" + name)) == TargetOf("/" + (front + "/" + name) + "/")
  {
    hide Stoi, Split, Joined;
    var s := front + "/" + name;
    SlashesCut(s);
    assert name != "" ==> Last(s) == Last(name) && Last(name) in name;
    SplitAtLast(front, name);
    JoinedSplit(front);
    JoinedSplit(s);
    assert Init(Split(front) + [name]) == Split(front);
  }

  lemma NamingOfOne(name: string)
    ensures Naming([name]) == Target([name], if Stoi(name).Some? then Stoi(name).value else 0, name)
  {
    hide Stoi;
  }

  // ---- Answers ----

  /** What the index holds after an id is entered, and after one is erased. */
  lemma IdsKept(index: Index, e: string, id: int, x: string, i: int)
    ensures x in WithId(index, e, id) <==> x in index || x == e
    ensures x in WithId(index, e, id) ==>
      (i in WithId(index, e, id)[x] <==> (x in index && i in index[x]) || (x == e && i == id))
    ensures x in WithoutId(index, e, id) <==> x in index
    ensures x in index ==> (i in WithoutId(index, e, id)[x] <==> i in index[x] && !(x == e && i == id))
  {
  }

  /** Which requests are refused, in which states, and with what page; none of them touches a file. */
  lemma RefusedExactly(st: State, req: Request)
    requires Answered(st, req).Answer?
    ensures var t := TargetOf(req.target);
      Answered(st, req).response.status !in [200, 201] <==>
      || t.NoEntity?
      || (req.verb == "POST" && |t.path| > 1)
      || (req.verb == "GET" && t.id == 0 && t.path !in st.store.dirs && t.path !in st.store.files)
      || (req.verb == "GET" && t.id != 0 && t.path !in st.store.files)
      || (req.verb == "PUT" && (t.id == 0 || |t.path| != 2))
      || (req.verb == "DELETE" && t.path !in st.store.files)
      || req.verb !in ["POST", "GET", "PUT", "DELETE"]
    ensures var t := TargetOf(req.target);
      Answered(st, req).response.status !in [200, 201] ==>
      && Answered(st, req).response ==
         (if t.NoEntity? || req.verb == "GET" || req.verb == "DELETE"
          then Response(404, "<html><h1>404 Not Found</h1></html>")
          else if req.verb in ["HEAD", "CONNECT", "OPTIONS", "TRACE", "PATCH"]
          then Response(405, "<html><h1>405 Not Allowed</h1></html>")
          else Response(400, "<html><h1>400 Bad Request</h1></html>"))
      && Answered(st, req).state.store == st.store
      && (!(t.Target? && req.verb == "GET" && t.id != 0) ==> Answered(st, req).state == st)
  {
    hide TargetOf, NextId, IntText, Listing, Stoi, Joined, Split, IsPlainPath;
  }

  /** What is answered to the other requests that create nothing. */
  lemma GrantedExactly(st: State, req: Request)
    requires Answered(st, req).Answer? && Answered(st, req).response.status == 200
    ensures var t := TargetOf(req.target);
      Answered(st, req).response.body ==
        if req.verb in ["PUT", "DELETE"] then ""
        else if t.id != 0 then st.store.files[t.path]
        else if t.entity in st.index then Listing(st.index[t.entity])
        else "Entity: " + t.entity + " is currently empty!"
    ensures var t := TargetOf(req.target); var made := Answered(st, req).state;
      req.verb == "GET" ==> made.store == st.store && (t.id == 0 ==> made == st)
  {
    hide TargetOf, NextId, IntText, Listing, Stoi, Joined, Split, IsPlainPath;
    RefusedExactly(st, req);
  }

  // ---- Agreement ----

  /** The name under which an id is stored. */
  predicate IsIdName(name: string) {
    var id := Stoi(name);
    id.Some? && id.value != 0 && name == IntText(id.value)
  }

  /** Entities are directories in the base directory, and in them are files named by ids, and nothing else. */
  ghost predicate TreeOk(store: Store) {
    && [] in store.dirs
    && (forall d :: d in store.dirs && d != [] ==> |d| == 1 && '/' !in d[0])
    && (forall f :: f in store.files ==> |f| == 2 && [f[0]] in store.dirs && IsIdName(f[1]))
  }

  predicate IsStored(store: Store, entity: string, id: int) {
    [entity, IntText(id)] in store.files
  }

  /** The index has the entities that are directories, and for each the ids of its files. */
  ghost predicate IndexAgrees(store: Store, index: Index) {
    && (forall e :: e in index <==> [e] in store.dirs)
    && (forall e, i :: e in index ==> (i in index[e] <==> IsStored(store, e, i)))
  }

  ghost predicate Consistent(st: State) {
    TreeOk(st.store) && IndexAgrees(st.store, st.index)
  }

  predicate NoSlashes(path: Path) {
    forall i :: 0 <= i < |path| ==> '/' !in path[i]
  }

  lemma IdNames(path: Path)
    requires |path| == 2
    ensures Naming(path).id != 0 ==> Naming(path).entity == path[0]
    ensures IsIdName(path[1]) <==> Naming(path).id != 0 && path == [path[0], IntText(Naming(path).id)]
    ensures IsIdName(path[1]) ==> Naming(path).entity == path[0]
  {
    assert Init(path) == [path[0]] && Last(path) == path[1];
    assert path == [path[0], path[1]];
  }

  lemma StoredIds(store: Store, entity: string, id: int)
    requires TreeOk(store) && IsStored(store, entity, id)
    ensures id != 0 && InInt32(id)
  {
    var name := [entity, IntText(id)][1];
    assert IsIdName(name);
    IntTextInjective(id, Stoi(name).value);
  }

  /** Requests after which the index and the files no longer agree. */
  predicate Spoils(st: State, verb: string, t: Target)
    requires t.Target?
  {
    || (verb == "PUT" && t.id != 0 && |t.path| == 2 && !IsIdName(t.path[1]))
    || (verb == "GET" && t.id != 0 && t.path !in st.store.files && t.entity in st.index && t.id in st.index[t.entity])
  }

  /** `Posted` in the cases where it does something, in terms of the entity. */
  lemma PostedTo(st: State, e: string, body: string)
    ensures Posted(st, Naming([e]), body) ==
      var made := if Exists(st.store, [e]) then st else State(Made(st.store, [e]), WithEntity(st.index, e));
      if e !in made.index || NextId(made.index[e]) > INT_MAX then Undefined
      else
        var id := NextId(made.index[e]);
        Answer(State(Written(made.store, [e, IntText(id)], body), WithId(made.index, e, id)),
               Response(201, "{\"id\": " + IntText(id) + "}"))
  {
    assert forall name :: [e] + [name] == [e, name];
  }

  lemma EntityAdded(st: State, e: string)
    requires Consistent(st) && '/' !in e && !Exists(st.store, [e])
    ensures Consistent(State(Made(st.store, [e]), WithEntity(st.index, e)))
  {
    var store := Made(st.store, [e]);
    assert [e] in store.dirs;
    assert forall i :: [e, IntText(i)][0] == e;
  }

  lemma PostKeeps(st: State, path: Path, body: string, st': State, response: Response)
    requires Consistent(st) && path != [] && NoSlashes(path)
    requires Posted(st, Naming(path), body) == Answer(st', response)
    ensures Consistent(st')
  {
    if |path| == 1 {
      var e := path[0];
      assert path == [e];
      PostedTo(st, e, body);
      if !Exists(st.store, [e]) {
        EntityAdded(st, e);
        FileAdded(Made(st.store, [e]), WithEntity(st.index, e), e, NextId(WithEntity(st.index, e)[e]), body);
      } else {
        FileAdded(st.store, st.index, e, NextId(st.index[e]), body);
      }
    }
  }

  /** Storing an item, and its id, keeps them in agreement. */
  lemma FileAdded(store: Store, index: Index, e: string, id: int, body: string)
    requires Consistent(State(store, index)) && e in index && id != 0 && InInt32(id)
    ensures Consistent(State(Written(store, [e, IntText(id)], body), WithId(index, e, id)))
    ensures Written(store, [e, IntText(id)], body) == store.(files := store.files[[e, IntText(id)] := body])
  {
    var f := [e, IntText(id)];
    assert Init(f) == [e] && f !in store.dirs;
    StoiOfText(id, []);
    assert IntText(id) + [] == IntText(id);
    assert IsIdName(f[1]);
    var store' := Written(store, f, body);
    var index' := WithId(index, e, id);
    forall x, i | x in index' ensures i in index'[x] <==> IsStored(store', x, i) {
      assert i in index[x] <==> IsStored(store, x, i);
      if [x, IntText(i)] == f {
        assert [x, IntText(i)][0] == x && [x, IntText(i)][1] == IntText(i);
        assert f[0] == e && f[1] == IntText(id);
        IntTextInjective(i, id);
      }
    }
  }

  lemma NothingToAdd(index: Index, e: string, id: int)
    requires e in index && id in index[e]
    ensures WithId(index, e, id) == index
  {
    assert index[e] + {id} == index[e];
  }

  lemma NothingToErase(index: Index, e: string, id: int)
    requires e in index ==> id !in index[e]
    ensures WithoutId(index, e, id) == index
  {
    if e in index {
      assert index[e] - {id} == index[e];
    }
  }

  /** Erasing an id whose file is there leaves the two in disagreement. */
  lemma ErasedTooMuch(store: Store, index: Index, e: string, id: int)
    requires IndexAgrees(store, index) && e in index && id in index[e]
    ensures !IndexAgrees(store, WithoutId(index, e, id))
  {
    var index' := WithoutId(index, e, id);
    assert IsStored(store, e, id) && e in index' && id !in index'[e];
  }

  lemma GetExact(st: State, path: Path)
    requires Consistent(st) && path != [] && NoSlashes(path)
    ensures Got(st, Naming(path)).Answer?
    ensures Consistent(Got(st, Naming(path)).state) <==> !Spoils(st, "GET", Naming(path))
  {
    hide Stoi, Joined, Listing;
    var t := Naming(path);
    if t.id != 0 && path in st.store.files {
      IdNames(path);
      assert IsStored(st.store, t.entity, t.id);
      NothingToAdd(st.index, t.entity, t.id);
    } else if t.id != 0 && t.entity in st.index && t.id in st.index[t.entity] {
      ErasedTooMuch(st.store, st.index, t.entity, t.id);
    } else {
      NothingToErase(st.index, t.entity, t.id);
    }
  }

  lemma WithEntityFirst(index: Index, e: string, id: int)
    ensures WithId(WithEntity(index, e), e, id) == WithId(index, e, id)
  {
  }

  /** Writing a file under the name of an id. */
  lemma PutItem(st: State, e: string, id: int, body: string)
    requires Consistent(st) && '/' !in e && id != 0 && InInt32(id)
    ensures var made := if Exists(st.store, [e]) then st.store else Made(st.store, [e]);
      Consistent(State(Written(made, [e, IntText(id)], body), WithId(st.index, e, id)))
  {
    if Exists(st.store, [e]) {
      FileAdded(st.store, st.index, e, id, body);
    } else {
      EntityAdded(st, e);
      FileAdded(Made(st.store, [e]), WithEntity(st.index, e), e, id, body);
      WithEntityFirst(st.index, e, id);
    }
  }

  /** Writing a file under another name. */
  lemma PutOther(st: State, path: Path, body: string)
    requires TreeOk(st.store) && |path| == 2 && !IsIdName(path[1])
    ensures var made := if Exists(st.store, Init(path)) then st.store else Made(st.store, Init(path));
      !TreeOk(Written(made, path, body))
  {
    assert Init(path) == [path[0]];
    var made := if Exists(st.store, Init(path)) then st.store else Made(st.store, Init(path));
    assert path in Written(made, path, body).files;
  }

  lemma PutExact(st: State, path: Path, body: string)
    requires Consistent(st) && path != [] && NoSlashes(path)
    ensures Put(st, Naming(path), body).Answer?
    ensures Consistent(Put(st, Naming(path), body).state) <==> !Spoils(st, "PUT", Naming(path))
  {
    var t := Naming(path);
    if t.id != 0 && |path| == 2 {
      if IsIdName(path[1]) {
        IdNames(path);
        NonZeroFits(path[1]);
        assert Init(path) == [path[0]];
        PutItem(st, path[0], t.id, body);
      } else {
        PutOther(st, path, body);
      }
    }
  }

  lemma NonZeroFits(name: string)
    requires IsIdName(name)
    ensures InInt32(Stoi(name).value)
  {
  }

  lemma DeleteKeeps(st: State, path: Path)
    requires Consistent(st) && path != [] && NoSlashes(path)
    ensures Deleted(st, Naming(path)).Answer? && Consistent(Deleted(st, Naming(path)).state)
  {
    if path in st.store.files {
      IdNames(path);
      FileRemoved(st.store, st.index, path[0], Naming(path).id);
    }
  }

  lemma FileRemoved(store: Store, index: Index, e: string, id: int)
    requires Consistent(State(store, index)) && IsStored(store, e, id)
    ensures Consistent(State(Removed(store, [e, IntText(id)]), WithoutId(index, e, id)))
  {
    var f := [e, IntText(id)];
    assert f[0] == e && f[1] == IntText(id);
    var store' := Removed(store, f);
    var index' := WithoutId(index, e, id);
    forall x, i | x in index' ensures i in index'[x] <==> IsStored(store', x, i) {
      assert i in index[x] <==> IsStored(store, x, i);
      assert [x, IntText(i)][0] == x && [x, IntText(i)][1] == IntText(i);
      if [x, IntText(i)] == f {
        IntTextInjective(i, id);
      }
    }
  }

  /** An answer keeps the index and the files in agreement, exactly if the request is not one of the spoiling ones. */
  lemma ServedExact(st: State, verb: string, path: Path, body: string)
    requires Consistent(st) && path != [] && NoSlashes(path) && Served(st, verb, Naming(path), body).Answer?
    ensures Consistent(Served(st, verb, Naming(path), body).state) <==> !Spoils(st, verb, Naming(path))
  {
    if verb == "POST" {
      var r := Served(st, verb, Naming(path), body);
      PostKeeps(st, path, body, r.state, r.response);
    } else if verb == "GET" {
      GetExact(st, path);
    } else if verb == "PUT" {
      PutExact(st, path, body);
    } else if verb == "DELETE" {
      DeleteKeeps(st, path);
    }
  }

  /** The same for a request as it comes in. */
  lemma AnsweredExact(st: State, req: Request)
    requires Consistent(st) && Answered(st, req).Answer?
    ensures Consistent(Answered(st, req).state)
       <==> TargetOf(req.target).NoEntity? || !Spoils(st, req.verb, TargetOf(req.target))
  {
    var t := TargetOf(req.target);
    if t.Target? {
      ServedExact(st, req.verb, t.path, req.body);
    }
  }

  // ---- Clean requests ----

  /** Ids are given as they are stored, and the only component of a path is no number but 0. */
  predicate IsClean(t: Target) {
    t.Target? && t.id != 0 && |t.path| <= 2 ==> |t.path| == 2 && IsIdName(t.path[1])
  }

  lemma CleanNeverSpoils(st: State, verb: string, path: Path)
    requires Consistent(st) && path != [] && NoSlashes(path) && IsClean(Naming(path))
    ensures !Spoils(st, verb, Naming(path))
  {
    var t := Naming(path);
    if t.id != 0 && |path| == 2 {
      IdNames(path);
      assert t.entity in st.index && t.id in st.index[t.entity] ==> IsStored(st.store, t.entity, t.id);
    } else if |path| > 2 && t.id != 0 {
      JoinedHasSlash(Init(path));
      KeysHaveNoSlash(st);
    }
  }

  lemma KeysHaveNoSlash(st: State)
    requires Consistent(st)
    ensures forall e :: e in st.index ==> '/' !in e
  {
    forall e | e in st.index ensures '/' !in e {
      assert [e] in st.store.dirs && [e][0] == e;
    }
  }

  /** The directory of an entity with one item in it. */
  function OneItem(e: string, id: int): State {
    State(Store({[], [e]}, map[[e, IntText(id)] := ""]), map[e := {id}])
  }

  lemma OneItemIsConsistent(e: string, id: int)
    requires '/' !in e && id != 0 && InInt32(id)
    ensures Consistent(OneItem(e, id))
  {
    var empty := State(Store({[]}, map[]), map[]);
    assert Consistent(empty);
    EntityAdded(empty, e);
    var store := Made(empty.store, [e]);
    assert store.dirs == {[], [e]};
    FileAdded(store, WithEntity(map[], e), e, id, "");
    assert {} + {id} == {id};
    assert WithId(WithEntity(map[], e), e, id) == map[e := {id}];
  }

  lemma UncleanSpoils(path: Path) returns (st: State, verb: string)
    requires path != [] && NoSlashes(path) && !IsClean(Naming(path))
    ensures Consistent(st) && Spoils(st, verb, Naming(path))
  {
    var t := Naming(path);
    if |path| == 2 {
      OneItemIsConsistent("x", 1);
      return OneItem("x", 1), "PUT";
    }
    OneItemIsConsistent(path[0], t.id);
    return OneItem(path[0], t.id), "GET";
  }

  /** The clean targets are exactly those that spoil no consistent state. */
  lemma CleanExactly(path: Path)
    requires path != [] && NoSlashes(path)
    ensures IsClean(Naming(path)) <==> forall st, verb :: Consistent(st) ==> !Spoils(st, verb, Naming(path))
  {
    if IsClean(Naming(path)) {
      forall st, verb | Consistent(st) ensures !Spoils(st, verb, Naming(path)) {
        CleanNeverSpoils(st, verb, path);
      }
    } else {
      var st, verb := UncleanSpoils(path);
    }
  }

  // ---- Runs ----

  predicate AllClean(reqs: seq<Request>) {
    forall i :: 0 <= i < |reqs| ==> IsClean(TargetOf(reqs[i].target))
  }

  predicate AllPlain(reqs: seq<Request>) {
    forall i :: 0 <= i < |reqs| ==> var t := TargetOf(reqs[i].target); t.Target? ==> IsPlainPath(t.path)
  }

  lemma CleanStep(st: State, req: Request)
    requires Consistent(st) && IsClean(TargetOf(req.target)) && Answered(st, req).Answer?
    ensures Consistent(Answered(st, req).state)
  {
    AnsweredExact(st, req);
    var t := TargetOf(req.target);
    if t.Target? {
      CleanNeverSpoils(st, req.verb, t.path);
    }
  }

  /** No run of clean requests brings the index and the files out of agreement. */
  lemma {:induction false} RunKeeps(st: State, reqs: seq<Request>)
    requires Consistent(st) && AllClean(reqs) && Run(st, reqs).Finished?
    ensures Consistent(Run(st, reqs).state) && |Run(st, reqs).responses| == |reqs|
    decreases |reqs|
  {
    if reqs != [] {
      CleanStep(st, reqs[0]);
      RunKeeps(Answered(st, reqs[0]).state, reqs[1..]);
    }
  }

  lemma NextIdOfNone()
    ensures NextId({}) == 1
  {
  }

  lemma PostedUndefined(st: State, e: string, body: string)
    requires Consistent(st)
    ensures Posted(st, Naming([e]), body) == Undefined <==> e in st.index && NextId(st.index[e]) > INT_MAX
    ensures Posted(st, Naming([e]), body) != Unmodelled
  {
    PostedTo(st, e, body);
    NextIdOfNone();
    assert Exists(st.store, [e]) <==> e in st.index;
  }

  lemma OthersAnswer(st: State, verb: string, t: Target, body: string)
    requires t.Target? && t.path != []
    ensures verb != "POST" || |t.path| != 1 ==> Served(st, verb, t, body).Answer?
    ensures verb == "POST" ==> Served(st, verb, t, body) == Posted(st, t, body)
  {
  }

  /** Where a request has no answer: exactly where a new item is wanted and every id is taken. */
  lemma PostUndefinedExactly(st: State, verb: string, path: Path, body: string)
    requires Consistent(st) && path != [] && NoSlashes(path)
    ensures Served(st, verb, Naming(path), body) != Unmodelled
    ensures Served(st, verb, Naming(path), body) == Undefined
       <==> verb == "POST" && |path| == 1 && path[0] in st.index && NextId(st.index[path[0]]) > 2147483647
  {
    OthersAnswer(st, verb, Naming(path), body);
    if |path| == 1 {
      assert path == [path[0]];
      PostedUndefined(st, path[0], body);
    }
  }

  /** The answer tells the id of the item that was not there before and is there now; all others are as they were. */
  predicate IsNewItem(st: State, path: Path, body: string, id: int, r: Outcome) {
    && id >= 1
    && path + [IntText(id)] !in st.store.files
    && r.Answer?
    && r.response.body == "{\"id\": " + IntText(id) + "}"
    && r.state.store.files == st.store.files[path + [IntText(id)] := body]
  }

  /** A new item never replaces one. */
  lemma PostIsFresh(st: State, path: Path, body: string)
    requires Consistent(st) && path != [] && NoSlashes(path)
    requires Posted(st, Naming(path), body).Answer? && Posted(st, Naming(path), body).response.status == 201
    ensures exists id :: IsNewItem(st, path, body, id, Posted(st, Naming(path), body))
  {
    var e := path[0];
    assert path == [e];
    PostedTo(st, e, body);
    var existed := Exists(st.store, [e]);
    var store := if existed then st.store else Made(st.store, [e]);
    var index := if existed then st.index else WithEntity(st.index, e);
    if !existed {
      EntityAdded(st, e);
    }
    var id := NextId(index[e]);
    FileAdded(store, index, e, id, body);
    assert !IsStored(store, e, id);
    assert path + [IntText(id)] == [e, IntText(id)];
    assert IsNewItem(st, path, body, id, Posted(st, Naming(path), body));
  }

  /** Enough ids are left for `n` more items of any entity. */
  predicate HasRoom(index: Index, n: nat) {
    n <= INT_MAX && forall e :: e in index ==> |index[e]| + n <= INT_MAX
  }

  lemma OneMore(s: set<int>, id: int)
    ensures |s + {id}| <= |s| + 1 && |s - {id}| <= |s|
  {
    if id in s {
      assert s + {id} == s && s == s - {id} + {id};
    } else {
      assert s - {id} == s;
    }
  }

  lemma RoomForIds(index: Index, e: string, id: int, n: nat)
    requires n > 0 && HasRoom(index, n)
    ensures HasRoom(WithId(index, e, id), n - 1) && HasRoom(WithoutId(index, e, id), n - 1)
    ensures HasRoom(WithEntity(index, e), n) && HasRoom(index, n - 1)
  {
    OneMore(if e in index then index[e] else {}, id);
  }

  lemma RoomStep(st: State, verb: string, t: Target, body: string, n: nat)
    requires t.Target? && t.path != [] && n > 0 && HasRoom(st.index, n) && Served(st, verb, t, body).Answer?
    ensures HasRoom(Served(st, verb, t, body).state.index, n - 1)
  {
    RoomForIds(st.index, t.entity, t.id, n);
    if verb == "POST" && |t.path| == 1 {
      var index := if Exists(st.store, t.path) then st.index else WithEntity(st.index, t.entity);
      RoomForIds(index, t.entity, NextId(index[t.entity]), n);
    }
  }

  lemma StepFinishes(st: State, req: Request, n: nat)
    requires Consistent(st) && IsClean(TargetOf(req.target)) && n > 0 && HasRoom(st.index, n)
    requires var t := TargetOf(req.target); t.Target? ==> IsPlainPath(t.path)
    ensures Answered(st, req).Answer?
    ensures Consistent(Answered(st, req).state) && HasRoom(Answered(st, req).state.index, n - 1)
  {
    var t := TargetOf(req.target);
    if t.Target? {
      PostUndefinedExactly(st, req.verb, t.path, req.body);
      RoomStep(st, req.verb, t, req.body, n);
    }
    CleanStep(st, req);
  }

  /** A run of clean requests gets all its answers: the unchecked lookup always finds its key. */
  lemma {:induction false} RunFinishes(st: State, reqs: seq<Request>)
    requires Consistent(st) && AllClean(reqs) && AllPlain(reqs) && HasRoom(st.index, |reqs|)
    ensures Run(st, reqs).Finished?
    decreases |reqs|
  {
    if reqs != [] {
      StepFinishes(st, reqs[0], |reqs|);
      RunFinishes(Answered(st, reqs[0]).state, reqs[1..]);
    }
  }
}
