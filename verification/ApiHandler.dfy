/** The request handler of the interface, working on a file system and an index that other handlers may share. */
module ApiHandler {
  import opened ByteStrings
  import opened Decimal
  import opened Paths
  import opened Api

  // ---- The objects a handler works on ----

  class FileSystem {
    var dirs: set<Path>
    var files: map<Path, string>

    function Tree(): Store
      reads this
    {
      Store(dirs, files)
    }

    method CreateDirectory(p: Path)
      modifies this
      ensures Tree() == Made(old(Tree()), p)
      ensures dirs == old(dirs) + {p} && files == old(files)
    {
      dirs := dirs + {p};
    }

    method WriteFile(p: Path, body: string)
      requires p != []
      modifies this
      ensures Tree() == Written(old(Tree()), p, body)
      ensures dirs == old(dirs)
      ensures files == if p[..|p| - 1] in dirs && p !in dirs then old(files)[p := body] else old(files)
    {
      if Init(p) in dirs && p !in dirs {
        files := files[p := body];
      }
    }

    method Remove(p: Path)
      modifies this
      ensures Tree() == Removed(old(Tree()), p)
      ensures dirs == old(dirs) && files == old(files) - {p}
    {
      files := files - {p};
    }
  }

  class EntityIds {
    var ids: Index
  }

  // ---- The handler ----

  lemma AscendingStep(ids: set<int>, least: int)
    requires IsLeastId(ids, least)
    ensures Ascending(ids) == [least] + Ascending(ids - {least})
  {
    assert forall other :: IsLeastId(ids, other) ==> other == least;
  }

  lemma ListStep(done: seq<int>, left: set<int>, least: int)
    requires IsLeastId(left, least)
    ensures done + Ascending(left) == done + [least] + Ascending(left - {least})
    ensures Commas(done + [least]) == Commas(done) + IntText(least) + ","
  {
    AscendingStep(left, least);
    assert done + ([least] + Ascending(left - {least})) == done + [least] + Ascending(left - {least});
    assert Init(done + [least]) == done;
  }

  lemma NothingListed()
    ensures Commas([]) == "" && Ascending({}) == []
  {
  }

  /** A list of the ids, each followed by a comma, in the order of the set. */
  method WithCommas(ids: set<int>) returns (text: string)
    ensures text == Commas(Ascending(ids))
  {
    hide IntText, Commas, Ascending;
    NothingListed();
    text := "";
    var left := ids;
    ghost var done: seq<int> := [];
    assert [] + Ascending(ids) == Ascending(ids);
    while left != {}
      invariant Ascending(ids) == done + Ascending(left)
      invariant text == Commas(done)
      decreases |left|
    {
      LeastIdExists(left);
      var least :| least in left && IsLeastId(left, least);
      ListStep(done, left, least);
      text := text + IntText(least) + ",";
      done := done + [least];
      left := left - {least};
    }
    assert done + [] == done;
  }

  /** What the slash at `pos`, the last one, divides a target into. */
  function PartsAt(s: string, pos: nat): Target
    requires pos < |s|
  {
    match Stoi(s[pos + 1..])
    case Some(id) => Target(Split(s[1..]), id, if pos == 0 then s[1..] else s[1..pos])
    case None => Target(Split(s[1..]), 0, s[1..])
  }

  /** What a target names, in terms of its last slash. */
  lemma TargetOfUrl(url: string, pos: nat)
    requires url != "" && url[0] == '/' && FindLast(WithoutSlash(url), '/') == Some(pos)
    ensures TargetOf(url) == PartsAt(WithoutSlash(url), pos)
  {
    var s := WithoutSlash(url);
    assert s == "/" + s[1..];
    CutAtLastSlash(s[1..], pos);
    JoinedSplit(s[1..]);
  }

  class RequestHandlerApi {
    const prefixLength: nat
    const entityIds: EntityIds
    const files: FileSystem

    constructor (prefixLength: nat, entityIds: EntityIds, files: FileSystem)
      ensures this.prefixLength == prefixLength && this.entityIds == entityIds && this.files == files
    {
      this.prefixLength := prefixLength;
      this.entityIds := entityIds;
      this.files := files;
    }

    ghost function Now(): State
      reads entityIds, files
    {
      State(files.Tree(), entityIds.ids)
    }

    /** Allocates the least free id; the entity must be in the index, and an id must be left. */
    method GetNextId(entity: string) returns (id: int)
      requires entity in entityIds.ids && NextId(entityIds.ids[entity]) <= INT_MAX
      modifies entityIds
      ensures id == NextId(old(entityIds.ids)[entity])
      ensures entityIds.ids == WithId(old(entityIds.ids), entity, id)
      ensures id >= 1 && id !in old(entityIds.ids)[entity]
      ensures forall i :: 1 <= i < id ==> i in old(entityIds.ids)[entity]
    {
      id := 1;
      var existing := entityIds.ids[entity];
      while id in existing
        invariant 1 <= id <= NextId(existing)
        decreases NextId(existing) - id
      {
        id := id + 1;
      }
      entityIds.ids := entityIds.ids[entity := existing + {id}];
    }

    method EraseIfExist(entity: string, id: int)
      modifies entityIds
      ensures entityIds.ids == WithoutId(old(entityIds.ids), entity, id)
    {
      if entity in entityIds.ids {
        var existing := entityIds.ids[entity];
        if id in existing {
          entityIds.ids := entityIds.ids[entity := existing - {id}];
        } else {
          assert existing - {id} == existing;
          assert entityIds.ids[entity := existing] == entityIds.ids;
        }
      }
    }

    method InsertIfNotExist(entity: string, id: int)
      modifies entityIds
      ensures entityIds.ids == WithId(old(entityIds.ids), entity, id)
    {
      if entity in entityIds.ids {
        var existing := entityIds.ids[entity];
        if id !in existing {
          entityIds.ids := entityIds.ids[entity := existing + {id}];
        } else {
          assert existing + {id} == existing;
          assert entityIds.ids[entity := existing] == entityIds.ids;
        }
      } else {
        assert {} + {id} == {id};
        entityIds.ids := entityIds.ids[entity := {id}];
      }
    }

    /** The id and the entity, once the last slash is found. */
    method NameParts(url: string, pos: nat) returns (t: Target)
      requires pos < |url|
      ensures t == PartsAt(url, pos)
    {
      var id := Stoi(url[pos + 1..]);
      if id.None? {
        return Target(Split(url[1..]), 0, url[1..]);
      }
      // For a slash at 0 the length given to `substr` wraps around, and everything after it is taken.
      return Target(Split(url[1..]), id.value, if pos == 0 then url[1..] else url[1..pos]);
    }

    method ParseUrlTarget(target: string) returns (t: Target)
      requires prefixLength <= |target|
      ensures t == TargetOf(target[prefixLength..])
    {
      var url := target[prefixLength..];
      if url == "" || url[0] != '/' {
        return NoEntity;
      }
      if Last(url) == '/' {
        url := url[..|url| - 1];
      }
      var pos := FindLast(url, '/');
      if pos.None? {
        return NoEntity;
      }
      TargetOfUrl(target[prefixLength..], pos.value);
      t := NameParts(url, pos.value);
    }

    method Post(t: Target, body: string) returns (response: Response)
      requires t.Target? && t.path != [] && Posted(Now(), t, body).Answer?
      modifies entityIds, files
      ensures Answer(Now(), response) == old(Posted(Now(), t, body))
      ensures |t.path| != 1 ==>
        response == Response(400, "<html><h1>400 Bad Request</h1></html>") && Now() == old(Now())
      ensures |t.path| == 1 ==>
        var ids := if t.entity in old(entityIds.ids) then old(entityIds.ids)[t.entity] else {};
        var file := t.path + [IntText(NextId(ids))];
        && response == Response(201, "{\"id\": " + IntText(NextId(ids)) + "}")
        && entityIds.ids == old(entityIds.ids)[t.entity := ids + {NextId(ids)}]
        && files.dirs == (if t.path in old(files.files) then old(files.dirs) else old(files.dirs) + {t.path})
        && files.files == if t.path in files.dirs && file !in files.dirs then old(files.files)[file := body]
                          else old(files.files)
    {
      if |t.path| != 1 {
        return BAD_REQUEST;
      }
      if t.path !in files.dirs && t.path !in files.files {
        files.CreateDirectory(t.path);
        if t.entity !in entityIds.ids {
          entityIds.ids := entityIds.ids[t.entity := {}];
        }
      }
      var id := GetNextId(t.entity);
      files.WriteFile(t.path + [IntText(id)], body);
      return Response(201, "{\"id\": " + IntText(id) + "}");
    }

    method Get(t: Target) returns (response: Response)
      requires t.Target?
      modifies entityIds
      ensures Answer(Now(), response) == old(Got(Now(), t))
      ensures t.id == 0 ==>
        && Now() == old(Now())
        && response == if t.path !in files.dirs && t.path !in files.files
                       then Response(404, "<html><h1>404 Not Found</h1></html>")
                       else if t.entity in entityIds.ids then Response(200, Listing(entityIds.ids[t.entity]))
                       else Response(200, "Entity: " + t.entity + " is currently empty!")
      ensures t.id != 0 ==>
        var index := old(entityIds.ids);
        var ids := if t.entity in index then index[t.entity] else {};
        && files.Tree() == old(files.Tree())
        && response == (if t.path in files.files then Response(200, files.files[t.path])
                        else Response(404, "<html><h1>404 Not Found</h1></html>"))
        && entityIds.ids == if t.path in files.files then index[t.entity := ids + {t.id}]
                            else if t.entity in index then index[t.entity := ids - {t.id}]
                            else index
    {
      if t.id == 0 {
        if t.path !in files.dirs && t.path !in files.files {
          return NOT_FOUND;
        }
        var text := "[";
        if t.entity in entityIds.ids {
          var list := WithCommas(entityIds.ids[t.entity]);
          text := text + list;
          text := text[..|text| - 1];
          text := text + "]";
        } else {
          text := "Entity: " + t.entity + " is currently empty!";
        }
        return Response(200, text);
      }
      if t.path !in files.files {
        EraseIfExist(t.entity, t.id);
        return NOT_FOUND;
      }
      InsertIfNotExist(t.entity, t.id);
      return Response(200, files.files[t.path]);
    }

    method Update(t: Target, body: string) returns (response: Response)
      requires t.Target?
      modifies entityIds, files
      ensures Answer(Now(), response) == old(Put(Now(), t, body))
      ensures t.id == 0 || |t.path| != 2 ==>
        response == Response(400, "<html><h1>400 Bad Request</h1></html>") && Now() == old(Now())
      ensures t.id != 0 && |t.path| == 2 ==>
        var index := old(entityIds.ids);
        var parent := [t.path[0]];
        && response == Response(200, "")
        && entityIds.ids == index[t.entity := (if t.entity in index then index[t.entity] else {}) + {t.id}]
        && files.dirs == (if parent in old(files.files) then old(files.dirs) else old(files.dirs) + {parent})
        && files.files == if parent in files.dirs && t.path !in files.dirs then old(files.files)[t.path := body]
                          else old(files.files)
    {
      if t.id == 0 || |t.path| != 2 {
        return BAD_REQUEST;
      }
      var parent := Init(t.path);
      assert parent == [t.path[0]];
      if parent !in files.dirs && parent !in files.files {
        files.CreateDirectory(parent);
      }
      files.WriteFile(t.path, body);
      InsertIfNotExist(t.entity, t.id);
      return Response(200, "");
    }

    method Delete(t: Target) returns (response: Response)
      requires t.Target?
      modifies entityIds, files
      ensures Answer(Now(), response) == old(Deleted(Now(), t))
      ensures t.path !in old(files.files) ==>
        response == Response(404, "<html><h1>404 Not Found</h1></html>") && Now() == old(Now())
      ensures t.path in old(files.files) ==>
        var index := old(entityIds.ids);
        && response == Response(200, "")
        && files.dirs == old(files.dirs) && files.files == old(files.files) - {t.path}
        && entityIds.ids == if t.entity in index then index[t.entity := index[t.entity] - {t.id}] else index
    {
      if t.path !in files.files {
        return NOT_FOUND;
      }
      files.Remove(t.path);
      EraseIfExist(t.entity, t.id);
      return Response(200, "");
    }

    method GetResponse(req: Request) returns (ok: bool, response: Response)
      requires prefixLength <= |req.target|
      requires Answered(Now(), req.(target := req.target[prefixLength..])).Answer?
      modifies entityIds, files
      ensures Answer(Now(), response) == old(Answered(Now(), req.(target := req.target[prefixLength..])))
      ensures ok <==> response.status < 400
    {
      var t := ParseUrlTarget(req.target);
      if t.NoEntity? {
        return false, NOT_FOUND;
      }
      if req.verb == "POST" {
        response := Post(t, req.body);
      } else if req.verb == "GET" {
        response := Get(t);
      } else if req.verb == "PUT" {
        response := Update(t, req.body);
      } else if req.verb == "DELETE" {
        response := Delete(t);
      } else {
        response := if IsUnsupported(req.verb) then NOT_ALLOWED else BAD_REQUEST;
      }
      ok := response.status < 400;
    }
  }
}
