/** Exactly which requests make a new item replace an old one. */
module ApiSafety {
  import opened ByteStrings
  import opened Decimal
  import opened Paths
  import opened Api
  import opened ApiLaws

  // ---- Replacing ----

  /** The answer says that `id` is a new item of `e`; its file was there already, and is overwritten. */
  predicate IsReplaced(st: State, e: string, body: string, id: int, r: Outcome) {
    && IsStored(st.store, e, id)
    && r.Answer?
    && r.response == Response(201, "{\"id\": " + IntText(id) + "}")
    && r.state.store.files == st.store.files[[e, IntText(id)] := body]
  }

  /** Creating an item of `e` replaces an item. */
  ghost predicate Replaces(st: State, e: string, body: string) {
    exists id :: IsReplaced(st, e, body, id, Posted(st, Naming([e]), body))
  }

  // ---- What every request keeps ----

  /** Below the base directory are entities with files in them, and the index has exactly these entities. */
  ghost predicate IsShaped(st: State) {
    && [] in st.store.dirs
    && (forall d :: d in st.store.dirs && d != [] ==> |d| == 1 && '/' !in d[0])
    && (forall f :: f in st.store.files ==> |f| == 2 && [f[0]] in st.store.dirs)
    && (forall e :: e in st.index <==> [e] in st.store.dirs)
  }

  predicate AgreesOn(st: State, e: string, i: int)
    requires e in st.index
  {
    i in st.index[e] <==> IsStored(st.store, e, i)
  }

  /** The index and the files agree on every id that a new item may get. */
  ghost predicate IsSafe(st: State) {
    && IsShaped(st)
    && forall e, i :: e in st.index && 1 <= i <= INT_MAX ==> AgreesOn(st, e, i)
  }

  lemma ConsistentIsSafe(st: State)
    requires Consistent(st)
    ensures IsSafe(st)
  {
  }

  lemma SameIdText(i: int, j: int)
    requires "{\"id\": " + IntText(i) + "}" == "{\"id\": " + IntText(j) + "}"
    ensures i == j
  {
    var s := "{\"id\": " + IntText(i) + "}";
    assert |IntText(i)| == |s| - 8;
    assert s[7..|s| - 1] == IntText(i) && s[7..|s| - 1] == IntText(j);
    IntTextInjective(i, j);
  }

  lemma PostedWrites(st: State, e: string, body: string)
    requires IsShaped(st)
    ensures e in st.index && NextId(st.index[e]) <= INT_MAX ==>
      var id := NextId(st.index[e]);
      Posted(st, Naming([e]), body)
      == Answer(State(st.store.(files := st.store.files[[e, IntText(id)] := body]), WithId(st.index, e, id)),
                Response(201, "{\"id\": " + IntText(id) + "}"))
    ensures e in st.index && NextId(st.index[e]) > INT_MAX ==> Posted(st, Naming([e]), body) == Undefined
    ensures e !in st.index ==> forall id :: !IsStored(st.store, e, id)
  {
    PostedTo(st, e, body);
    assert Exists(st.store, [e]) <==> e in st.index;
    forall id ensures [e, IntText(id)] !in st.store.dirs && Init([e, IntText(id)]) == [e] {
    }
    assert forall id :: [e, IntText(id)][0] == e;
  }

  /** A new item replaces one exactly if the file of the least id that is free in the index is there. */
  lemma ReplacesExactly(st: State, e: string, body: string)
    requires IsShaped(st)
    ensures Replaces(st, e, body)
       <==> e in st.index && NextId(st.index[e]) <= INT_MAX && IsStored(st.store, e, NextId(st.index[e]))
  {
    PostedWrites(st, e, body);
    var r := Posted(st, Naming([e]), body);
    if id :| IsReplaced(st, e, body, id, r) {
      SameIdText(id, NextId(st.index[e]));
    }
    if e in st.index && NextId(st.index[e]) <= INT_MAX && IsStored(st.store, e, NextId(st.index[e])) {
      assert IsReplaced(st, e, body, NextId(st.index[e]), r);
    }
  }

  /** While index and files agree on the ids of new items, none replaces another. */
  lemma SafeNeverReplaces(st: State, e: string, body: string)
    requires IsSafe(st)
    ensures !Replaces(st, e, body)
  {
    ReplacesExactly(st, e, body);
    assert e in st.index && NextId(st.index[e]) <= INT_MAX ==> AgreesOn(st, e, NextId(st.index[e]));
  }

  // ---- Steps ----

  lemma NameOfId(name: string, i: int)
    requires InInt32(i) && name == IntText(i)
    ensures Stoi(name) == Some(i)
  {
    StoiOfText(i, []);
    assert name + [] == name;
  }

  lemma SafeEntity(st: State, e: string)
    requires IsSafe(st) && '/' !in e && !Exists(st.store, [e])
    ensures IsSafe(State(Made(st.store, [e]), WithEntity(st.index, e)))
  {
    var store, index := Made(st.store, [e]), WithEntity(st.index, e);
    assert e !in st.index && index == st.index[e := {}];
    ShapedEntity(st, e);
    forall x, i | x in index && 1 <= i <= INT_MAX ensures i in index[x] <==> IsStored(store, x, i) {
      if x == e {
        assert [x, IntText(i)][0] == x;
      } else {
        assert AgreesOn(st, x, i);
      }
    }
  }

  lemma ShapedEntity(st: State, e: string)
    requires IsShaped(st) && '/' !in e && !Exists(st.store, [e])
    ensures IsShaped(State(Made(st.store, [e]), WithEntity(st.index, e)))
  {
    var store := Made(st.store, [e]);
    assert [e] in store.dirs && [e][0] == e;
  }

  lemma ItemPath(x: string, i: int, e: string, name: string)
    ensures [x, IntText(i)] == [e, name] <==> x == e && IntText(i) == name
  {
    assert [x, IntText(i)] == [e, name] ==> [x, IntText(i)][0] == [e, name][0] && [x, IntText(i)][1] == [e, name][1];
  }

  /** Writing a file named by a number, in canonical form if it is positive, and entering the number. */
  lemma SafeWrite(st: State, e: string, name: string, id: int, body: string)
    requires IsSafe(st) && e in st.index && Stoi(name) == Some(id) && (id > 0 ==> name == IntText(id))
    ensures IsSafe(State(Written(st.store, [e, name], body), WithId(st.index, e, id)))
  {
    hide Stoi, IntText;
    var f := [e, name];
    assert Init(f) == [e] && f !in st.store.dirs;
    var st' := State(Written(st.store, f, body), WithId(st.index, e, id));
    assert st'.store.files == st.store.files[f := body];
    forall x, i | x in st'.index && 1 <= i <= INT_MAX ensures AgreesOn(st', x, i) {
      assert AgreesOn(st, x, i);
      ItemPath(x, i, e, name);
      if IntText(i) == name {
        NameOfId(name, i);
      }
    }
  }

  lemma ShapedKeys(st: State)
    requires IsShaped(st)
    ensures forall e :: e in st.index ==> '/' !in e
  {
    forall e | e in st.index ensures '/' !in e {
      assert [e] in st.store.dirs && [e][0] == e;
    }
  }

  /** Removing a file, and the number it is named by; a name that is no number erases no id of an entity. */
  lemma SafeRemove(st: State, path: Path)
    requires IsSafe(st) && |path| == 2 && NoSlashes(path)
    requires Naming(path).id > 0 ==> path[1] == IntText(Naming(path).id)
    ensures IsSafe(State(Removed(st.store, path), WithoutId(st.index, Naming(path).entity, Naming(path).id)))
  {
    var t := Naming(path);
    assert Init(path) == [path[0]] && Last(path) == path[1] && path == [path[0], path[1]];
    if Stoi(path[1]).None? {
      JoinedHasSlash(path);
      ShapedKeys(st);
    }
    var st' := State(Removed(st.store, path), WithoutId(st.index, t.entity, t.id));
    forall x, i | x in st'.index && 1 <= i <= INT_MAX ensures AgreesOn(st', x, i) {
      assert AgreesOn(st, x, i);
      ItemPath(x, i, path[0], path[1]);
      if IntText(i) == path[1] {
        NameOfId(path[1], i);
      }
    }
  }

  lemma SafeErase(st: State, e: string, id: int)
    requires IsSafe(st) && (id > 0 && e in st.index ==> id !in st.index[e])
    ensures IsSafe(st.(index := WithoutId(st.index, e, id)))
  {
    var st' := st.(index := WithoutId(st.index, e, id));
    forall x, i | x in st'.index && 1 <= i <= INT_MAX ensures AgreesOn(st', x, i) {
      assert AgreesOn(st, x, i);
    }
  }

  lemma SafeEnter(st: State, e: string, id: int)
    requires IsSafe(st) && e in st.index && (id > 0 ==> id in st.index[e])
    ensures IsSafe(st.(index := WithId(st.index, e, id)))
  {
    var st' := st.(index := WithId(st.index, e, id));
    forall x, i | x in st'.index && 1 <= i <= INT_MAX ensures AgreesOn(st', x, i) {
      assert AgreesOn(st, x, i);
    }
  }

  // ---- Requests ----

  /** Targets with a positive id are clean; those with a negative one need not be. */
  predicate IsSafeTarget(t: Target) {
    t.Target? && t.id > 0 ==> IsClean(t)
  }

  lemma SafePost(st: State, path: Path, body: string)
    requires IsSafe(st) && path != [] && NoSlashes(path) && Posted(st, Naming(path), body).Answer?
    ensures IsSafe(Posted(st, Naming(path), body).state)
  {
    if |path| == 1 {
      var e := path[0];
      assert path == [e];
      PostedTo(st, e, body);
      if !Exists(st.store, [e]) {
        SafeEntity(st, e);
        var made := State(Made(st.store, [e]), WithEntity(st.index, e));
        NameOfId(IntText(NextId(made.index[e])), NextId(made.index[e]));
        SafeWrite(made, e, IntText(NextId(made.index[e])), NextId(made.index[e]), body);
      } else {
        NameOfId(IntText(NextId(st.index[e])), NextId(st.index[e]));
        SafeWrite(st, e, IntText(NextId(st.index[e])), NextId(st.index[e]), body);
      }
    }
  }

  lemma PairNaming(path: Path)
    requires |path| == 2
    ensures Naming(path).id != 0 ==> Stoi(path[1]) == Some(Naming(path).id) && Naming(path).entity == path[0]
    ensures IsIdName(path[1]) ==> path[1] == IntText(Naming(path).id)
    ensures Init(path) == [path[0]] && path == [path[0], path[1]]
  {
    assert Init(path) == [path[0]] && Last(path) == path[1];
  }

  lemma SafeGet(st: State, path: Path)
    requires IsSafe(st) && path != [] && NoSlashes(path) && IsSafeTarget(Naming(path))
    ensures Got(st, Naming(path)).Answer? && IsSafe(Got(st, Naming(path)).state)
  {
    hide Stoi, IntText, Listing;
    var t := Naming(path);
    if t.id != 0 {
      if |path| == 2 {
        PairNaming(path);
        assert t.id > 0 && t.entity in st.index ==> InInt32(t.id) && AgreesOn(st, t.entity, t.id) by {
          IdsFit(path[1]);
        }
      }
      if path in st.store.files {
        SafeEnter(st, t.entity, t.id);
      } else {
        if |path| > 2 {
          JoinedHasSlash(Init(path));
          ShapedKeys(st);
        }
        SafeErase(st, t.entity, t.id);
      }
    }
  }

  lemma IdsFit(name: string)
    ensures Stoi(name).Some? ==> InInt32(Stoi(name).value)
  {
  }

  lemma SafePut(st: State, path: Path, body: string)
    requires IsSafe(st) && path != [] && NoSlashes(path) && IsSafeTarget(Naming(path))
    ensures Put(st, Naming(path), body).Answer? && IsSafe(Put(st, Naming(path), body).state)
  {
    hide Stoi, IntText;
    var t := Naming(path);
    if t.id != 0 && |path| == 2 {
      PairNaming(path);
      var e := path[0];
      if Exists(st.store, [e]) {
        SafeWrite(st, e, path[1], t.id, body);
      } else {
        SafeEntity(st, e);
        SafeWrite(State(Made(st.store, [e]), WithEntity(st.index, e)), e, path[1], t.id, body);
        WithEntityFirst(st.index, e, t.id);
      }
    }
  }

  lemma SafeDelete(st: State, path: Path)
    requires IsSafe(st) && path != [] && NoSlashes(path) && IsSafeTarget(Naming(path))
    ensures Deleted(st, Naming(path)).Answer? && IsSafe(Deleted(st, Naming(path)).state)
  {
    if path in st.store.files {
      PairNaming(path);
      SafeRemove(st, path);
    }
  }

  lemma SafeServed(st: State, verb: string, path: Path, body: string)
    requires IsSafe(st) && path != [] && NoSlashes(path) && IsSafeTarget(Naming(path))
    requires Served(st, verb, Naming(path), body).Answer?
    ensures IsSafe(Served(st, verb, Naming(path), body).state)
  {
    if verb == "POST" {
      SafePost(st, path, body);
    } else if verb == "GET" {
      SafeGet(st, path);
    } else if verb == "PUT" {
      SafePut(st, path, body);
    } else if verb == "DELETE" {
      SafeDelete(st, path);
    }
  }

  /** Over runs of requests with safe targets, index and files stay in agreement on the ids of new items. */
  lemma {:induction false} SafeRun(st: State, reqs: seq<Request>)
    requires IsSafe(st) && (forall i :: 0 <= i < |reqs| ==> IsSafeTarget(TargetOf(reqs[i].target)))
    requires Run(st, reqs).Finished?
    ensures IsSafe(Run(st, reqs).state)
    decreases |reqs|
  {
    if reqs != [] {
      var t := TargetOf(reqs[0].target);
      if t.Target? {
        SafeServed(st, reqs[0].verb, t.path, reqs[0].body);
      }
      SafeRun(Answered(st, reqs[0]).state, reqs[1..]);
    }
  }

  /** So after any such run from a consistent state, a new item, of whatever entity, replaces none. */
  lemma SafeRunNeverReplaces(st: State, reqs: seq<Request>, e: string, body: string)
    requires Consistent(st) && (forall i :: 0 <= i < |reqs| ==> IsSafeTarget(TargetOf(reqs[i].target)))
    requires Run(st, reqs).Finished?
    ensures !Replaces(Run(st, reqs).state, e, body)
  {
    ConsistentIsSafe(st);
    SafeRun(st, reqs);
    SafeNeverReplaces(Run(st, reqs).state, e, body);
  }

  // ---- One request, exactly ----

  /** The request takes the id out of the index that the next new item of `e` gets, while its file stays. */
  predicate FreesStoredId(st: State, verb: string, t: Target, e: string) {
    && verb == "GET" && t.Target? && t.id > 0 && t.path !in st.store.files
    && t.entity == e && e in st.index && forall i :: 1 <= i <= t.id ==> i in st.index[e]
  }

  /** Erasing an id makes it the next one exactly if all smaller ones are taken; otherwise the next one was free. */
  lemma NextAfterErasing(ids: set<int>, id: int)
    requires id in ids && id > 0
    ensures NextId(ids - {id}) in ids <==> forall i :: 1 <= i <= id ==> i in ids
    ensures NextId(ids - {id}) in ids ==> NextId(ids - {id}) == id
  {
    hide NextId;
    var others := ids - {id};
    var next := NextId(others);
    assert id !in others && next !in others;
    assert next in ids ==> next == id;
    assert next < id && next in ids ==> next in others;
    if next == id {
      forall i | 1 <= i <= id ensures i in ids {
        assert i == id || i in others;
      }
    } else if forall i :: 1 <= i <= id ==> i in ids {
      assert false;
    }
  }

  lemma ErasedThenNew(st: State, t: Target, e: string, body: string)
    requires Consistent(st) && t.Target? && t.id > 0 && t.entity in st.index && t.id in st.index[t.entity]
    ensures Replaces(st.(index := WithoutId(st.index, t.entity, t.id)), e, body)
       <==> t.entity == e && forall i :: 1 <= i <= t.id ==> i in st.index[e]
  {
    hide Replaces, Stoi, IntText, NextId, TreeOk;
    var st' := st.(index := WithoutId(st.index, t.entity, t.id));
    ConsistentIsSafe(st);
    ReplacesExactly(st', e, body);
    assert IsStored(st.store, t.entity, t.id);
    StoredIds(st.store, t.entity, t.id);
    NextAfterErasing(st.index[t.entity], t.id);
    assert e in st.index ==> NextId(st.index[e]) !in st.index[e];
  }

  lemma ReadThenNew(st: State, path: Path, e: string, body: string)
    requires Consistent(st) && path != [] && NoSlashes(path) && Spoils(st, "GET", Naming(path))
    ensures Got(st, Naming(path)).Answer?
    ensures Replaces(Got(st, Naming(path)).state, e, body) <==> FreesStoredId(st, "GET", Naming(path), e)
  {
    var t := Naming(path);
    if t.id > 0 {
      ErasedThenNew(st, t, e, body);
    } else {
      ConsistentIsSafe(st);
      SafeErase(st, t.entity, t.id);
      SafeNeverReplaces(Got(st, t).state, e, body);
    }
  }

  /** The state after a file has been written under a name that is not the printed form of the number it reads as. */
  lemma WrittenUnclean(st: State, path: Path, body: string)
    requires Consistent(st) && |path| == 2 && NoSlashes(path) && Naming(path).id != 0 && !IsIdName(path[1])
    ensures Put(st, Naming(path), body).Answer?
    ensures var st' := Put(st, Naming(path), body).state;
      && IsShaped(st')
      && st'.store.files == st.store.files[path := body]
      && forall e, i :: e in st.index && i in st.index[e] ==> e in st'.index && i in st'.index[e]
  {
    hide Stoi, IntText;
    ConsistentIsSafe(st);
    PairNaming(path);
    if !Exists(st.store, [path[0]]) {
      ShapedEntity(st, path[0]);
    }
    assert path !in st.store.dirs;
  }

  lemma WrittenThenNew(st: State, path: Path, body: string, e: string, added: string)
    requires Consistent(st) && |path| == 2 && NoSlashes(path) && Naming(path).id != 0 && !IsIdName(path[1])
    ensures Put(st, Naming(path), body).Answer? && !Replaces(Put(st, Naming(path), body).state, e, added)
  {
    hide Stoi, Put, Replaces;
    WrittenUnclean(st, path, body);
    var st' := Put(st, Naming(path), body).state;
    ReplacesExactly(st', e, added);
    PairNaming(path);
    if e in st'.index {
      var next := NextId(st'.index[e]);
      if next <= INT_MAX && IsStored(st'.store, e, next) {
        UncleanIsOther(st, path, e, next);
        assert false;
      }
    }
  }

  lemma UncleanIsOther(st: State, path: Path, e: string, id: int)
    requires Consistent(st) && |path| == 2 && Stoi(path[1]).Some? && !IsIdName(path[1])
    requires 1 <= id <= INT_MAX && [e, IntText(id)] in st.store.files + map[path := ""]
    requires Naming(path).id != 0
    ensures e in st.index && id in st.index[e]
  {
    PairNaming(path);
    if [e, IntText(id)] == path {
      NameOfId(path[1], id);
      assert false;
    }
    assert [e, IntText(id)][0] == e && IsStored(st.store, e, id);
  }

  /**
   * From a consistent state, after one request: the next new item of `e` replaces one if and only if the request was
   * a GET that took the id of a stored item out of the index, all smaller ids being taken.
   */
  lemma ReplacesAfterExactly(st: State, verb: string, path: Path, body: string, e: string, added: string)
    requires Consistent(st) && path != [] && NoSlashes(path) && Served(st, verb, Naming(path), body).Answer?
    ensures Replaces(Served(st, verb, Naming(path), body).state, e, added)
       <==> FreesStoredId(st, verb, Naming(path), e)
  {
    hide Stoi, IntText, Joined, Posted, Got, Put, Deleted, Replaces, Consistent, NextId;
    var st' := Served(st, verb, Naming(path), body).state;
    ServedExact(st, verb, path, body);
    if !Spoils(st, verb, Naming(path)) {
      ConsistentIsSafe(st');
      SafeNeverReplaces(st', e, added);
    } else if verb == "GET" {
      ReadThenNew(st, path, e, added);
    } else {
      WrittenThenNew(st, path, body, e, added);
    }
  }

  // ---- Targets, exactly ----

  /** An entity with the items 1 to `k`. */
  function Stocked(e: string, k: nat): State {
    if k == 0 then State(Store({[], [e]}, map[]), map[e := {}])
    else
      var fewer := Stocked(e, k - 1);
      State(Written(fewer.store, [e, IntText(k)], ""), WithId(fewer.index, e, k))
  }

  lemma EmptyIsConsistent(e: string)
    requires '/' !in e
    ensures Consistent(State(Store({[], [e]}, map[]), map[e := {}]))
  {
    var empty := State(Store({[]}, map[]), map[]);
    assert Consistent(empty);
    EntityAdded(empty, e);
    assert Made(empty.store, [e]).dirs == {[], [e]};
    assert WithEntity(map[], e) == map[e := {}];
  }

  lemma {:induction false} StockedIsConsistent(e: string, k: nat)
    requires '/' !in e && k <= INT_MAX
    ensures Consistent(Stocked(e, k)) && e in Stocked(e, k).index
    ensures forall i :: i in Stocked(e, k).index[e] <==> 1 <= i <= k
  {
    hide Consistent, Written, IntText;
    if k == 0 {
      EmptyIsConsistent(e);
    } else {
      StockedIsConsistent(e, k - 1);
      FileAdded(Stocked(e, k - 1).store, Stocked(e, k - 1).index, e, k, "");
    }
  }

  /** After some request for `path` from a consistent state, the next new item of its entity replaces one. */
  ghost predicate CanReplace(path: Path)
    requires path != []
  {
    exists st, verb, body, added :: ReplacesNext(st, verb, path, body, added)
  }

  ghost predicate ReplacesNext(st: State, verb: string, path: Path, body: string, added: string)
    requires path != []
  {
    && Consistent(st)
    && Served(st, verb, Naming(path), body).Answer?
    && Replaces(Served(st, verb, Naming(path), body).state, path[0], added)
  }

  lemma UncleanFrees(path: Path)
    requires path != [] && NoSlashes(path) && !IsClean(Naming(path)) && Naming(path).id > 0
    ensures Naming(path).id <= INT_MAX
    ensures FreesStoredId(Stocked(path[0], Naming(path).id), "GET", Naming(path), path[0])
  {
    var t := Naming(path);
    StockedIsConsistent(path[0], t.id);
    if |path| == 2 {
      PairNaming(path);
    }
  }

  /** The targets that can make a new item replace one are exactly those with a positive id that are not clean. */
  lemma CanReplaceExactly(path: Path)
    requires path != [] && NoSlashes(path)
    ensures CanReplace(path) <==> !IsClean(Naming(path)) && Naming(path).id > 0
  {
    hide Stoi, IntText, Joined, Posted, Put, Deleted, Replaces, Consistent, Stocked;
    var t := Naming(path);
    if st, verb, body, added :| ReplacesNext(st, verb, path, body, added) {
      ReplacesAfterExactly(st, verb, path, body, path[0], added);
      FreeingIsUnclean(st, verb, path, path[0]);
    }
    if !IsClean(t) && t.id > 0 {
      UncleanFrees(path);
      var st := Stocked(path[0], t.id);
      StockedIsConsistent(path[0], t.id);
      ReplacesAfterExactly(st, "GET", path, "", path[0], "");
      assert ReplacesNext(st, "GET", path, "", "");
    }
  }

  lemma FreeingIsUnclean(st: State, verb: string, path: Path, e: string)
    requires Consistent(st) && path != [] && NoSlashes(path) && FreesStoredId(st, verb, Naming(path), e)
    ensures !IsClean(Naming(path)) && Naming(path).id > 0
  {
    if IsClean(Naming(path)) {
      CleanNeverSpoils(st, verb, path);
      assert false;
    }
  }

  // ---- Items that are lost ----

  /**
   * If the items 1 to k of an entity are there, a GET whose target names k, but not in canonical form, is answered
   * with 404, takes k out of the index, and the next new item is written over the item k.
   */
  lemma UncleanGetLosesAnItem(st: State, path: Path, body: string)
    requires Consistent(st) && path != [] && NoSlashes(path) && !IsClean(Naming(path)) && Naming(path).id > 0
    requires path[0] in st.index && forall i :: 1 <= i <= Naming(path).id ==> i in st.index[path[0]]
    ensures var asked := Got(st, Naming(path));
      && asked.Answer? && asked.response == NOT_FOUND && asked.state.store == st.store
      && IsReplaced(asked.state, path[0], body, Naming(path).id, Posted(asked.state, Naming([path[0]]), body))
  {
    var t, e := Naming(path), path[0];
    if |path| == 2 {
      PairNaming(path);
    }
    assert t.entity == e && path !in st.store.files;
    assert IsStored(st.store, e, t.id);
    StoredIds(st.store, e, t.id);
    NextAfterErasing(st.index[e], t.id);
    ConsistentIsSafe(st);
    PostedWrites(st.(index := WithoutId(st.index, e, t.id)), e, body);
  }

  /** For an entity whose name reads as k, that is the request for its list. */
  lemma NumericEntityLosesAnItem(st: State, e: string, body: string)
    requires Consistent(st) && '/' !in e && Naming([e]).id > 0
    requires e in st.index && forall i :: 1 <= i <= Naming([e]).id ==> i in st.index[e]
    ensures var asked := Got(st, Naming([e]));
      && asked.Answer? && asked.response == NOT_FOUND && asked.state.store == st.store
      && IsReplaced(asked.state, e, body, Naming([e]).id, Posted(asked.state, Naming([e]), body))
  {
    UncleanGetLosesAnItem(st, [e], body);
  }

  /** Such a state: the entity `1` with its item 1. */
  lemma NumericEntityExists()
    ensures Consistent(OneItem("1", 1)) && Naming(["1"]).id == 1 && 1 in OneItem("1", 1).index["1"]
  {
    assert Text(1) == [DigitOf(1)] && DigitOf(1) == '1';
    StoiOfText(1, []);
    assert IntText(1) + [] == "1" && Last(["1"]) == "1";
    OneItemIsConsistent("1", 1);
  }

  /** For any entity, it is a request for an item whose id has a leading zero or something behind it. */
  lemma NonCanonicalIdLosesAnItem(st: State, e: string, name: string, id: int, body: string)
    requires Consistent(st) && '/' !in e && '/' !in name && Stoi(name) == Some(id) && id > 0 && name != IntText(id)
    requires e in st.index && forall i :: 1 <= i <= id ==> i in st.index[e]
    ensures var asked := Got(st, Naming([e, name]));
      && asked.Answer? && asked.response == NOT_FOUND && asked.state.store == st.store
      && IsReplaced(asked.state, e, body, id, Posted(asked.state, Naming([e]), body))
  {
    var path := [e, name];
    PairNaming(path);
    assert Last(path) == name && Naming(path).id == id;
    UncleanGetLosesAnItem(st, path, body);
  }

  /** Such a name: `01`. */
  lemma LeadingZero()
    ensures Stoi("01") == Some(1) && "01" != IntText(1)
  {
    assert "01"[..1] == "0" && "0"[..0] == "" && "01"[0..] == "01" && "01"[..2] == "01";
    assert Value("0") == 0;
    assert DigitRun("01") == 2;
    assert Text(1) == [DigitOf(1)];
  }
}
