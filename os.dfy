/** The file tree as the process sees it: mutable state that the os calls
    update in place, each call proved to do what its counterpart in `Disks`
    describes. */
module Os {
  import opened Errors
  import opened Disks

  class FileSystem {
    var entries: map<FsPath, Entry>
    const faults: Faults

    ghost predicate Valid()
      reads this
    {
      Tree(entries)
    }

    /** The current tree together with the environment's faults. */
    function State(): Disk
      reads this
    {
      Disk(entries, faults)
    }

    constructor (entries: map<FsPath, Entry>, faults: Faults)
      requires Tree(entries)
      ensures Valid() && State() == Disk(entries, faults)
    {
      this.entries := entries;
      this.faults := faults;
    }

    /** `os.Mkdir(path, os.ModePerm)`. */
    method Mkdir(path: string) returns (err: Option<Error>)
      requires Valid()
      modifies this
      ensures Valid()
      ensures Effect(State(), err) == Disks.Mkdir(old(State()), path)
    {
      var e := Disks.Mkdir(State(), path);
      entries, err := e.disk.entries, e.err;
    }

    /** `os.Create(path)`, the handle dropped. */
    method Create(path: string) returns (err: Option<Error>)
      requires Valid()
      modifies this
      ensures Valid()
      ensures Effect(State(), err) == Disks.Create(old(State()), path)
    {
      var e := Disks.Create(State(), path);
      entries, err := e.disk.entries, e.err;
    }

    /** `ioutil.WriteFile(path, data, 0644)`. */
    method WriteFile(path: string, data: seq<byte>) returns (err: Option<Error>)
      requires Valid()
      modifies this
      ensures Valid()
      ensures Effect(State(), err) == Disks.WriteFile(old(State()), path, data)
    {
      var e := Disks.WriteFile(State(), path, data);
      entries, err := e.disk.entries, e.err;
    }

    /** `os.RemoveAll(path)`. */
    method RemoveAll(path: string) returns (err: Option<Error>)
      requires Valid()
      modifies this
      ensures Valid()
      ensures Effect(State(), err) == Disks.RemoveAll(old(State()), path)
    {
      var e := Disks.RemoveAll(State(), path);
      entries, err := e.disk.entries, e.err;
    }

    /** `Copy(src, dst)`, the recursive copy used by the migration. */
    method Copy(src: string, dst: string) returns (err: Option<Error>)
      requires Valid()
      modifies this
      ensures Valid()
      ensures Effect(State(), err) == Disks.Copy(old(State()), src, dst)
    {
      var e := Disks.Copy(State(), src, dst);
      entries, err := e.disk.entries, e.err;
    }
  }
}
