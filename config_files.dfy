/** The bootstrap routines as the program runs them: step by step against
    the mutable file system, each proved to leave the file system and to
    end exactly as its counterpart in `ConfigSpec` describes. */
module ConfigFiles {
  import opened Errors
  import opened Paths
  import opened Disks
  import opened Os
  import Spec = ConfigSpec

  /** Stat the directory and make it when stat says it does not exist; a
      failed mkdir ends the process with status 1. */
  method EnsureDir(fs: FileSystem, path: string) returns (r: Spec.Outcome)
    requires fs.Valid()
    modifies fs
    ensures fs.Valid()
    ensures Spec.Run(fs.State(), r) == Spec.EnsureDir(old(fs.State()), path)
  {
    if Stat(fs.State(), path).NotExist? {
      var err := fs.Mkdir(path);
      if err.Some? {
        return Spec.Fatal(Spec.Exit(1, err.value));
      }
    }
    return Spec.Done([]);
  }

  /** `createXdgConfigDir`. */
  method CreateXdgConfigDir(fs: FileSystem, user: UserLookup) returns (r: Spec.Outcome)
    requires fs.Valid()
    modifies fs
    ensures fs.Valid()
    ensures Spec.Run(fs.State(), r) == Spec.CreateXdgConfigDir(old(fs.State()), user)
  {
    var xdgConfigDir := ExpandHomeDir(XdgConfigDir, user).GetOr("");
    r := EnsureDir(fs, xdgConfigDir);
  }

  /** `createWtfConfigDir`. */
  method CreateWtfConfigDir(fs: FileSystem, user: UserLookup) returns (r: Spec.Outcome)
    requires fs.Valid()
    modifies fs
    ensures fs.Valid()
    ensures Spec.Run(fs.State(), r) == Spec.CreateWtfConfigDir(old(fs.State()), user)
  {
    var wtfConfigDir := WtfConfigDir(user).GetOr("");
    r := EnsureDir(fs, wtfConfigDir);
  }

  /** `CreateFile(fileName)`. */
  method CreateFile(fs: FileSystem, user: UserLookup, fileName: string) returns (r: Result<string>)
    requires fs.Valid()
    modifies fs
    ensures fs.Valid()
    ensures Spec.Run(fs.State(), r) == Spec.CreateFile(old(fs.State()), user, fileName)
  {
    var configDir := WtfConfigDir(user);
    if configDir.Err? {
      return Err(configDir.error);
    }
    var filePath := configDir.value + "/" + fileName;
    var info := Stat(fs.State(), filePath);
    if info.StatFailed? {
      return Err(info.err);
    }
    if info.NotExist? {
      var err := fs.Create(filePath);
      if err.Some? {
        return Err(err.value);
      }
    }
    return Ok(filePath);
  }

  /** `createWtfConfigFile`. */
  method CreateWtfConfigFile(fs: FileSystem, user: UserLookup) returns (r: Spec.Outcome)
    requires fs.Valid()
    modifies fs
    ensures fs.Valid()
    ensures Spec.Run(fs.State(), r) == Spec.CreateWtfConfigFile(old(fs.State()), user)
  {
    var filePath := CreateFile(fs, user, Spec.ConfigFileName);
    if filePath.Err? {
      return Spec.Fatal(Spec.Panic(Some(filePath.error)));
    }
    // the stat error is discarded: without an entry there is no size to read
    var file := Stat(fs.State(), filePath.value);
    if !file.Found? {
      return Spec.Fatal(Spec.NilDereference);
    }
    if Size(file.entry) == 0 {
      var err := fs.WriteFile(filePath.value, Spec.DefaultConfigFile);
      if err.Some? {
        // the value panicked with is CreateFile's error, nil by now
        return Spec.Fatal(Spec.Panic(None));
      }
    }
    return Spec.Done([]);
  }

  /** `migrateOldConfig`. */
  method MigrateOldConfig(fs: FileSystem, user: UserLookup) returns (r: Spec.Outcome)
    requires fs.Valid()
    modifies fs
    ensures fs.Valid()
    ensures Spec.Run(fs.State(), r) == Spec.MigrateOldConfig(old(fs.State()), user)
  {
    var srcDir := ExpandHomeDir(WtfConfigDirV1, user).GetOr("");
    var destDir := ExpandHomeDir(WtfConfigDirV2, user).GetOr("");
    if Stat(fs.State(), srcDir).NotExist? {
      return Spec.Done([]);
    }
    if Stat(fs.State(), destDir).Found? {
      return Spec.Done([]);
    }
    var err := fs.Copy(srcDir, destDir);
    if err.Some? {
      return Spec.Fatal(Spec.Panic(Some(err.value)));
    }
    r := Spec.Done([]);
    if Stat(fs.State(), destDir).Found? {
      var rmErr := fs.RemoveAll(srcDir);
      if rmErr.Some? {
        // printed, and otherwise ignored
        r := Spec.Done([rmErr.value]);
      }
    }
  }

  /** `Initialize`: each step in turn; a fatal step ends the process, so
      nothing after it runs. */
  method Initialize(fs: FileSystem, user: UserLookup) returns (r: Spec.Outcome)
    requires fs.Valid()
    modifies fs
    ensures fs.Valid()
    ensures Spec.Run(fs.State(), r) == Spec.Initialize(old(fs.State()), user)
  {
    var migrated := MigrateOldConfig(fs, user);
    if migrated.Fatal? {
      return migrated;
    }
    r := CreateXdgConfigDir(fs, user);
    if r.Fatal? {
      return;
    }
    r := CreateWtfConfigDir(fs, user);
    if r.Fatal? {
      return;
    }
    r := CreateWtfConfigFile(fs, user);
    if r.Fatal? {
      return;
    }
    return migrated;
  }
}
