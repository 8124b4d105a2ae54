/** Building the index from the files that are there when the server starts. */
module ApiScan {
  import opened ByteStrings
  import opened Decimal
  import opened Api
  import opened ApiHandler
  import opened ApiLaws

  /** The ids that `Insert_ID` finds: numbers that the names of the files of an entity start with. */
  predicate IsFound(store: Store, entity: string, id: int) {
    exists f :: f in store.files && |f| == 2 && f[0] == entity && Stoi(f[1]) == Some(id)
  }

  class ApiHandlerFactory {
    var index: Index

    constructor ()
      ensures index == map[]
    {
      index := map[];
    }

    /** `Insert_ID`; the entries of a directory come in an arbitrary order. */
    method InsertId(store: Store, entity: string)
      requires entity !in index
      modifies this
      ensures index.Keys == old(index.Keys) + {entity}
      ensures forall e :: e in old(index) ==> index[e] == old(index[e])
      ensures forall i :: i in index[entity] <==> IsFound(store, entity, i)
    {
      var ids: set<int> := {};
      var left := set f | f in store.files && |f| == 2 && f[0] == entity;
      while left != {}
        invariant forall f :: f in left ==> f in store.files && |f| == 2 && f[0] == entity
        invariant forall f :: f in store.files && |f| == 2 && f[0] == entity && f !in left && Stoi(f[1]).Some? ==>
                    Stoi(f[1]).value in ids
        invariant forall i :: i in ids ==> IsFound(store, entity, i)
        decreases |left|
      {
        var f :| f in left;
        left := left - {f};
        var id := Stoi(f[1]);
        if id.Some? {
          ids := ids + {id.value};
        }
      }
      index := index[entity := ids];
    }

    /** `scanFS`: without a base directory there is nothing to scan, and one is made. */
    method ScanFs(files: FileSystem) returns (found: bool)
      requires index == map[]
      modifies this, files
      ensures found <==> [] in old(files.dirs)
      ensures files.files == old(files.files) && files.dirs == old(files.dirs) + {[]}
      ensures if found then IsScanned(files.Tree(), index) else index == map[]
    {
      if [] !in files.dirs {
        files.CreateDirectory([]);
        return false;
      }
      assert files.dirs == files.dirs + {[]};
      var left := set d | d in files.dirs && |d| == 1;
      while left != {}
        invariant files.Tree() == old(files.Tree())
        invariant forall d :: d in left ==> d in files.dirs && |d| == 1
        invariant forall e :: e in index <==> [e] in files.dirs && [e] !in left
        invariant forall e, i :: e in index ==> (i in index[e] <==> IsFound(files.Tree(), e, i))
        decreases |left|
      {
        var d :| d in left;
        assert d == [d[0]];
        InsertId(files.Tree(), d[0]);
        left := left - {d};
      }
      return true;
    }
  }

  /** The index `scanFS` makes of the files. */
  ghost predicate IsScanned(store: Store, index: Index) {
    && (forall e :: e in index <==> [e] in store.dirs)
    && (forall e, i :: e in index ==> (i in index[e] <==> IsFound(store, e, i)))
  }

  /** A file whose name reads as a number has a file beside it that is named by that number. */
  ghost predicate NamesAreMatched(store: Store) {
    forall f :: f in store.files && |f| == 2 && [f[0]] in store.dirs && Stoi(f[1]).Some? ==>
      IsStored(store, f[0], Stoi(f[1]).value)
  }

  /** No file is named by a number out of the range of `int`. */
  ghost predicate NamesAreInRange(store: Store) {
    forall e, i :: [e] in store.dirs && IsStored(store, e, i) ==> InInt32(i)
  }

  lemma StoredIsFound(store: Store, e: string, id: int)
    requires IsStored(store, e, id)
    ensures InInt32(id) ==> IsFound(store, e, id)
  {
    if InInt32(id) {
      StoiOfText(id, []);
      var f := [e, IntText(id)];
      assert f[1] + [] == f[1] && f[0] == e;
    }
  }

  /** Scanning any tree: the index agrees with the files exactly if their names can be read back. */
  lemma ScanAgreesExactly(store: Store, index: Index)
    requires IsScanned(store, index)
    ensures IndexAgrees(store, index) <==> NamesAreMatched(store) && NamesAreInRange(store)
  {
    if IndexAgrees(store, index) {
      forall f | f in store.files && |f| == 2 && [f[0]] in store.dirs && Stoi(f[1]).Some?
        ensures IsStored(store, f[0], Stoi(f[1]).value)
      {
        assert IsFound(store, f[0], Stoi(f[1]).value);
      }
      forall e, i | [e] in store.dirs && IsStored(store, e, i) ensures InInt32(i) {
        assert i in index[e];
        assert IsFound(store, e, i);
      }
    }
    if NamesAreMatched(store) && NamesAreInRange(store) {
      forall e, i | e in index ensures i in index[e] <==> IsStored(store, e, i) {
        if IsStored(store, e, i) {
          StoredIsFound(store, e, i);
        }
      }
    }
  }

  /** In a tree with nothing but entities and items, scanning starts a consistent state. */
  lemma ScanIsConsistent(store: Store, index: Index)
    requires IsScanned(store, index)
    ensures Consistent(State(store, index)) <==> TreeOk(store)
  {
    hide Stoi, IntText, IsFound;
    if TreeOk(store) {
      forall e, i | IsStored(store, e, i) ensures InInt32(i) {
        StoredIds(store, e, i);
      }
      forall f | f in store.files ensures IsStored(store, f[0], Stoi(f[1]).value) {
        assert IsIdName(f[1]);
        assert f == [f[0], f[1]];
      }
      ScanAgreesExactly(store, index);
    }
  }

  /** After the scan of such a tree, no run of clean requests brings the index and the files out of agreement. */
  lemma ScanThenRun(store: Store, index: Index, reqs: seq<Request>)
    requires IsScanned(store, index) && TreeOk(store) && AllClean(reqs) && Run(State(store, index), reqs).Finished?
    ensures Consistent(Run(State(store, index), reqs).state)
  {
    ScanIsConsistent(store, index);
    RunKeeps(State(store, index), reqs);
  }
}
