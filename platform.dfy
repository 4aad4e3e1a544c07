/** The collaborators the viewer drives but does not implement: the file
    system and Qt's application-font database. Each failure the real call can
    raise is an explicit parameter (`fault`, `denied`, `loadable`), so every
    outcome the source handles can be chosen by the caller. */
module Platform {
  import opened FontStore

  type Content = seq<bv8>

  /** The disk as the viewer sees it: files with their bytes, directories,
      and the state of saved_paths.json. */
  class Disk {
    var files: map<string, Content>
    var dirs: set<string>
    var config: Stored

    constructor (files: map<string, Content>, dirs: set<string>, config: Stored)
      ensures this.files == files && this.dirs == dirs && this.config == config
    {
      this.files, this.dirs, this.config := files, dirs, config;
    }

    /** shutil.copy(src, dst): fails when src is not a file or the copy
        itself raises (`fault`); on success dst holds src's bytes. */
    method Copy(src: string, dst: string, fault: bool) returns (ok: bool)
      modifies this`files
      ensures ok == (src in old(files) && !fault)
      ensures files == if ok then old(files)[dst := old(files)[src]] else old(files)
    {
      ok := src in files && !fault;
      if ok {
        files := files[dst := files[src]];
      }
    }

    /** os.remove(p): raises OSError when p is not a file or removal is
        denied; on success p is gone and nothing else changes. */
    method Remove(p: string, denied: bool) returns (ok: bool)
      modifies this`files
      ensures ok == (p in old(files) && !denied)
      ensures files == if ok then old(files) - {p} else old(files)
    {
      ok := p in files && !denied;
      if ok {
        files := files - {p};
      }
    }

    /** save_paths: json.dump of the list, or an IOError that is reported
        and leaves the file as it was. */
    method SavePaths(paths: seq<string>, fault: bool)
      modifies this`config
      ensures config == if fault then old(config) else PathArray(paths)
    {
      if !fault {
        config := PathArray(paths);
      }
    }
  }

  datatype RegistryCall = Add(path: string, id: int) | Release(id: int)

  /** QFontDatabase's application fonts: the ids registered and not yet
      removed, and (ghost) the history of calls made to it. */
  class FontDatabase {
    var live: set<int>
    var nextId: int
    ghost var calls: seq<RegistryCall>

    ghost predicate Valid()
      reads this
    {
      0 <= nextId && forall id :: id in live ==> 0 <= id < nextId
    }

    constructor ()
      ensures Valid() && live == {} && calls == []
    {
      live, nextId, calls := {}, 0, [];
    }

    /** addApplicationFont(path): -1 when the file is missing or the toolkit
        rejects it, otherwise a non-negative id that is not live. */
    method AddApplicationFont(path: string, disk: Disk, loadable: bool) returns (id: int)
      requires Valid()
      modifies this
      ensures Valid()
      ensures (id == -1) == !(path in disk.files && loadable)
      ensures id != -1 ==> 0 <= id && id !in old(live)
      ensures live == if id == -1 then old(live) else old(live) + {id}
      ensures calls == old(calls) + [Add(path, id)]
    {
      if path in disk.files && loadable {
        id := nextId;
        nextId := nextId + 1;
        live := live + {id};
      } else {
        id := -1;
      }
      calls := calls + [Add(path, id)];
    }

    /** removeApplicationFont(id): true iff id was live; it is not live after. */
    method RemoveApplicationFont(id: int) returns (removed: bool)
      requires Valid()
      modifies this
      ensures Valid()
      ensures removed == (id in old(live))
      ensures live == old(live) - {id}
      ensures calls == old(calls) + [Release(id)]
    {
      removed := id in live;
      live := live - {id};
      calls := calls + [Release(id)];
    }
  }
}
