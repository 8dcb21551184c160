# wtf configuration bootstrap, in Dafny

This project models the configuration bootstrap of the `wtf` terminal dashboard, `cfg/config_files.go`. It proves properties of that model.

When it starts, `wtf` expands `~` in its configuration paths (`expandHomeDir`, `home`, `WtfConfigDir`). `Initialize` then provisions the configuration in four steps:

1. `migrateOldConfig` moves a first-version `~/.wtf/` directory to the XDG-style `~/.config/wtf/`.
2. `createXdgConfigDir` makes sure `~/.config` exists.
3. `createWtfConfigDir` makes sure `~/.config/wtf` exists.
4. `createWtfConfigFile` makes sure `config.yml` exists (through `CreateFile`) and seeds it with the default configuration when it is empty.

The project has six modules:

- `Errors` (`errors.dfy`): the errors the code can observe, plus `Option` and `Result`. `Result` stands for Go's `(value, error)` pair.
- `Paths` (`paths.dfy`): home-directory expansion.
  - The executing user is an injected `UserLookup`: either a home directory or a lookup failure.
  - `filepath.Join`/`filepath.Clean` are modelled on their path elements. Lemmas show that `Join` concatenates the elements of its arguments and that `Clean` is idempotent.
- `Disks` (`disks.dfy`): the file system as a value.
  - A `Disk` maps resolved paths (sequences of path elements) to `Directory | RegularFile(bytes)`.
  - It also holds a fixed set of *faults*: paths where `stat` or a write fails for a reason other than the tree's shape (permissions, say).
  - `Stat` has three outcomes: found, not-exist, or another error. As on Unix, a path below a regular file is another error, ENOTDIR, which `os.IsNotExist` does not accept.
  - `Mkdir`, `Create`, `WriteFile`, `RemoveAll` and the external recursive `Copy` are functions from disk to disk plus an error. Each is proved to keep the tree well formed: the root is a directory, and every entry sits in a directory.
  - `RemoveAll` removes every entry of the subtree that it can and keeps going past the ones it cannot. It fails when anything is left.
  - `Copy` first makes the destination's missing ancestors, as `MkdirAll` does. It then writes every source entry it can reach at the same place below the destination, merging into what is there, and fails when any entry was not reached. A failed copy keeps what it wrote.
- `Os` (`os.dfy`): the mutable file system. The class `FileSystem` holds the entry map as a field, and its methods update that field in place. Each method is proved to do what its `Disks` counterpart describes.
- `ConfigSpec` (`config_spec.dfy`): each bootstrap routine as a function from the disk before to the disk after, with its `Outcome`.
  - An `Outcome` is `Done(warnings)` or `Fatal(abort)`.
  - `os.Exit(1)` is `Exit(1, cause)`, a `panic(err)` is `Panic(err)`, and a nil dereference is `NilDereference`.
  - The file's properties are stated and proved here.
- `ConfigFiles` (`config_files.dfy`): the routines as the program runs them.
  - They are imperative methods that stat and then mutate a `FileSystem` step by step, with the same early exits as the Go code.
  - Each is proved to end in exactly the state and outcome that its `ConfigSpec` function gives.

The code is followed, including two of its quirks:

- `createWtfConfigFile` discards the error of its second `os.Stat` (line 131) and then calls `file.Size()`. If that stat failed, it would dereference nil. This is modelled as `Fatal(NilDereference)`. The model proves that this branch cannot be reached: `CreateFile` has just made the file visible to stat.
- When writing the default configuration fails, the code panics with `err` (line 135). That is `CreateFile`'s error, which is nil by then, not the write's error. This is modelled as `Panic(None)`.

Where the code's behaviour differs from what its comments suggest:

- Callers that drop the error of `expandHomeDir` (`v, _ :=`) go on with `""`, not with the unexpanded path. So when the home directory cannot be found, `createXdgConfigDir` calls `os.Mkdir("")`, which fails, and the process exits with status 1. `migrateOldConfig` stats `""` and returns without doing anything.
- The directory routines act only on "not exist". If stat fails for any other reason, they silently do nothing. That includes a path below a regular file: when `~/.config` is a regular file, `createWtfConfigDir` returns silently, and `createWtfConfigFile` then panics with the ENOTDIR that `CreateFile`'s stat of `config.yml` returned (`ConfigSpec.XdgFileBlocksConfig`).
- When home is a regular file, the stat of `~/.wtf` (line 219) fails with ENOTDIR rather than "not exist". So `migrateOldConfig` goes on to copy a legacy directory that is not there, and panics with the copy's ENOTDIR (`ConfigSpec.HomeFileMigrationPanics`).
- `migrateOldConfig` skips only when stat finds `~/.config/wtf` (line 224), and after the copy removes `~/.wtf` only when stat then finds `~/.config/wtf` (line 235). Stat faults are fixed for the whole run. So when stat fails on `~/.config/wtf` for another reason, the legacy tree is copied into it but never removed, and nothing is reported (`ConfigSpec.UnreadableCurrentKeepsLegacy`).
- A copy that fails part-way panics, but leaves `~/.config/wtf` behind. Every later run then finds it and skips the migration, so the legacy entries the copy missed are never copied (`ConfigSpec.FailedMigrationLocksOut`).
- `expandHomeDir` joins through `filepath.Join`, which cleans the result. So `~` expands to the cleaned home directory, not a literal concatenation (`Paths.ExpandBareMarker`).

## Model

| member | source | states |
|---|---|---|
| Paths.Home | cfg/config_files.go:200-210 | succeeds exactly when the lookup succeeds with a non-empty home directory, and returns that directory; a failed lookup passes its error on; an empty home is "cannot find user-specific home dir" |
| Paths.ExpandHomeDir | cfg/config_files.go:177-196 | "" and paths not starting with `~` come back unchanged; `~x` with x not a separator is refused with "cannot expand user-specific home dir" whatever the user lookup says; `~`, `~/…`, `~\…` succeed exactly when the home lookup does, pass its error on otherwise, and name the home directory's path elements followed by those of the rest |
| Paths.WtfConfigDir | cfg/config_files.go:65-72 | succeeds exactly when the home lookup does, with its error otherwise; the result is a non-empty path naming home's elements followed by `.config`, `wtf` |
| Paths.ExpandOrEmpty | cfg/config_files.go:215-216 | a caller that drops the expansion error (here and at lines 97 and 111) goes on with "", which it gets exactly when the path was empty or the expansion failed; otherwise it gets the expanded path |
| Paths.Join | cfg/config_files.go:195 | `filepath.Join(dir, elem)` is "" exactly when both are empty, and names the elements of `dir` followed by those of `elem` |
| Paths.Clean | cfg/config_files.go:195 | `filepath.Clean` never returns "" |
| Paths.CleanComponents | cfg/config_files.go:195 | cleaning a path keeps the elements it names |
| Paths.CleanRooted | cfg/config_files.go:195 | cleaning keeps a path rooted exactly when it was rooted |
| Paths.CleanIdempotent | cfg/config_files.go:195 | cleaning twice is cleaning once |
| Paths.FixedDirComponents | cfg/config_files.go:14-23 | the three directory constants name `.config`, `.wtf` and `.config/wtf` below the home marker |
| Paths.FixedDirsExpand | cfg/config_files.go:215-216 | with a home directory, the three constants expand to non-empty paths naming home followed by `.config`, `.wtf` and `.config/wtf`; the legacy and current directories therefore differ |
| Paths.ExpandBareMarker | cfg/config_files.go:190-195 | `~` alone expands to the cleaned home directory, which is the home directory itself when that is already clean |
| Disks.Size | cfg/config_files.go:133 | `FileInfo.Size()` is 0 exactly for an empty regular file |
| Disks.Stat | cfg/config_files.go:40-42 | found (with the entry) exactly when the path is non-empty, stat can reach it and it exists; another error exactly when stat cannot reach it, or it is missing below a regular file, which is ENOTDIR; not-exist otherwise, and then nothing on the way is a regular file |
| Disks.Mkdir | cfg/config_files.go:100 | succeeds exactly when the path is new, its parent is an existing directory and it is writable, and then adds just that directory; an existing path is ErrExist; a failure changes nothing; the tree stays well formed |
| Disks.WriteFile | cfg/config_files.go:134 | succeeds exactly when the parent is a directory, the path is not a directory and it is writable, and then the path holds exactly the data; a failure changes nothing; the tree stays well formed |
| Disks.Create | cfg/config_files.go:43 | succeeds exactly when the parent is a directory, the path is not a directory and it is writable, and then the path is an empty regular file; a failure changes nothing; the tree stays well formed |
| Disks.Sweep | cfg/config_files.go:236 | exactly the entries outside the subtree, and those inside it with something write-protected at or below them, remain, unchanged |
| Disks.RemoveAll | cfg/config_files.go:236 | "" and missing paths are no-ops without error; it succeeds exactly when nothing in the subtree is write-protected (the root is refused), and then exactly the subtree is gone; otherwise it removes every entry of the subtree with nothing write-protected at or below it, keeps the path, and reports an error; nothing outside the subtree changes; the tree stays well formed |
| Disks.MissingAncestors | cfg/config_files.go:229 | the directories the copy makes are the strict prefixes of the destination that do not exist, so afterwards every prefix exists |
| Disks.Partial | cfg/config_files.go:229 | the copy writes, below the destination, exactly the source entries that nothing on their way blocks (an unreadable source, a write-protected target, a directory against a file), with the source's contents |
| Disks.Copy | cfg/config_files.go:229 | nothing is removed; every change is a new ancestor directory of the destination, or lies below it and mirrors the source entry at the same place; it succeeds exactly when both paths are non-empty, the source exists and does not contain the destination, the ancestors can be made and every source entry is reached, and then the result is the old tree plus the ancestors plus the whole mirror; a failure before the first write changes nothing and a later one keeps what was written; the tree stays well formed |
| Disks.CopyInto | cfg/config_files.go:229 | once the checks pass, the copy makes the missing ancestors and writes what it reaches; it succeeds exactly when it reaches every source entry, and then writes the whole mirror; every change is a new ancestor directory or a mirrored entry; the tree stays well formed |
| Disks.CopyMissingSource | cfg/config_files.go:229 | a copy whose source is missing fails without changing anything, with the error stat reports for the source: the permission error of a stat fault, ENOTDIR below a regular file, "not exist" otherwise |
| Disks.Mirror | cfg/config_files.go:229 | every entry below the source appears, with the same contents, at the same place below the destination, and every mirrored entry comes from such an entry |
| Disks.Prune | cfg/config_files.go:236 | exactly the entries outside the removed subtree remain, unchanged |
| Disks.SweepKeepsTree | cfg/config_files.go:236 | a partial removal keeps the tree well formed: a removable directory takes its whole subtree |
| Disks.SweepComplete | cfg/config_files.go:236 | with nothing write-protected in the subtree, the removal takes all of it |
| Disks.GrownTree | cfg/config_files.go:229 | making the missing ancestors keeps the tree well formed and leaves every ancestor of the destination a directory |
| Disks.CopyKeepsTree | cfg/config_files.go:229 | making the ancestors and writing what the copy reaches keeps the tree well formed |
| Disks.CopyComplete | cfg/config_files.go:229 | a copy that reaches every source entry writes the whole mirror |
| Disks.CopiedTree | cfg/config_files.go:229 | after a successful copy every source entry sits at the same place below the destination, and everything outside the destination is unchanged |
| Disks.CopyWrites | cfg/config_files.go:229 | what a copy writes is a new ancestor directory of the destination, or an entry below it that mirrors the source |
| Disks.RootReached | cfg/config_files.go:229 | when stat reaches the source and the new destination is writable, the copy makes the destination, with the source's entry |
| Disks.MoveSubtree | cfg/config_files.go:229-239 | when the destination tree is new and diverges from the source, copying keeps every old entry, puts every source entry at the same place below the destination outside the source, and adds nothing below the source |
| Disks.AncestorsPresent | cfg/config_files.go:99 | in a well-formed tree every prefix of an entry is an entry and a directory |
| Disks.NothingBelowMissing | cfg/config_files.go:224 | nothing lies below a path that does not exist |
| Os.FileSystem.Mkdir | cfg/config_files.go:100 | the in-place `os.Mkdir` leaves the state and error that `Disks.Mkdir` gives and keeps the tree well formed |
| Os.FileSystem.Create | cfg/config_files.go:43 | the in-place `os.Create` leaves the state and error that `Disks.Create` gives |
| Os.FileSystem.WriteFile | cfg/config_files.go:134 | the in-place `ioutil.WriteFile` leaves the state and error that `Disks.WriteFile` gives |
| Os.FileSystem.RemoveAll | cfg/config_files.go:236 | the in-place `os.RemoveAll` leaves the state and error that `Disks.RemoveAll` gives |
| Os.FileSystem.Copy | cfg/config_files.go:229 | the in-place `Copy` leaves the state and error that `Disks.Copy` gives |
| ConfigSpec.ConfigFileNameIsName | cfg/config_files.go:125 | `config.yml` is a single path element |
| ConfigSpec.ConfigFilePath | cfg/config_files.go:125 | `config.yml`'s path names home, `.config`, `wtf`, `config.yml` |
| ConfigSpec.EnsureDir | cfg/config_files.go:99-105 | ends Done with no warnings or Exit(1); an existing entry of any kind, or one stat cannot reach, is left alone; on not-exist it returns exactly when mkdir succeeds, having added exactly that directory, and otherwise exits with status 1 and mkdir's error, changing nothing; "" and a missing parent are fatal; the tree stays well formed |
| ConfigSpec.CreateXdgConfigDir | cfg/config_files.go:96-106 | Done or Exit(1); without a home directory it is Exit(1, not-exist); an existing or unreadable `~/.config`, or one below a regular file (a home that is a file included), is left alone; otherwise it returns exactly when home is a directory and `~/.config` is writable, having added exactly that directory |
| ConfigSpec.CreateWtfConfigDir | cfg/config_files.go:110-120 | Done or Exit(1); without a home directory it is Exit(1, not-exist); an existing or unreadable `~/.config/wtf`, or one below a regular file (a `~/.config` that is a file included), is left alone; otherwise it returns exactly when `~/.config` is a directory and `~/.config/wtf` is writable, having added exactly that directory |
| ConfigSpec.CreateFile | cfg/config_files.go:31-53 | a config-dir error is returned unchanged; a file stat finds is returned as it is; a stat error is returned, ENOTDIR when the file is missing below a regular file; a missing file is created, success exactly when the creation succeeds, with its error otherwise; success returns `configDir/fileName`, which stat then finds; an error changes nothing; the only possible addition is an empty file at the returned path |
| ConfigSpec.CreateWtfConfigFile | cfg/config_files.go:124-138 | never dereferences nil; a `CreateFile` error is the panic value; a failed write of the default panics with nil (line 135), and it fails exactly when the missing or empty file is write-protected; when it returns, `config.yml` exists and is non-empty, holds the default when it was missing or empty, and the disk is untouched when it held anything; no other entry changes |
| ConfigSpec.MigrateOldConfig | cfg/config_files.go:214-241 | no legacy directory, or a current directory stat finds: nothing changes; otherwise the legacy tree is copied, and the process ends exactly when the copy fails, with a panic carrying the copy's error and the disk the failed copy left; a returning migration reports at most one warning, the removal's permission error; the tree stays well formed |
| ConfigSpec.Initialize | cfg/config_files.go:57-62 | returning implies a home directory; the tree stays well formed |
| ConfigSpec.EnsureDirIdempotent | cfg/config_files.go:99-105 | making a directory twice ends as making it once |
| ConfigSpec.ConfigDirsIdempotent | cfg/config_files.go:96-120 | running `createXdgConfigDir` or `createWtfConfigDir` twice ends as running it once |
| ConfigSpec.CreateFileIdempotent | cfg/config_files.go:39-52 | after a successful `CreateFile`, a second call returns the same path and changes nothing |
| ConfigSpec.NonEmptyConfigUntouched | cfg/config_files.go:131-137 | a non-empty `config.yml` is left as it is, byte for byte |
| ConfigSpec.CreateWtfConfigFileIdempotent | cfg/config_files.go:124-138 | after it returned, seeding again changes nothing |
| ConfigSpec.FailedMigrationOnlyAdds | cfg/config_files.go:229-232 | a fatal migration removes nothing, and everything it changed is a new ancestor directory of `~/.config/wtf` or a legacy entry mirrored below it |
| ConfigSpec.MigrationResult | cfg/config_files.go:228-240 | a returning migration from an existing `~/.wtf` to a missing `~/.config/wtf` copied the whole legacy tree with the missing ancestors, then ran `RemoveAll` on `~/.wtf`, whose error is the one possible warning |
| ConfigSpec.MigrationMovesLegacyTree | cfg/config_files.go:228-240 | with the legacy directory present and the current one absent, a returning migration places each legacy entry at the same place under `~/.config/wtf`, adds nothing else but that directory's missing ancestors, keeps every entry outside the legacy tree, and removes the whole legacy tree unless it warned; when it warned, `~/.wtf` is still there, what is left of it is unchanged, and no write-protected entry in it is gone |
| ConfigSpec.CopyKeepsLegacy | cfg/config_files.go:229 | copying `~/.wtf` to `~/.config/wtf`, successfully or not, leaves every legacy entry as it was |
| ConfigSpec.FailedMigrationLocksOut | cfg/config_files.go:224-232 | a copy that fails after making `~/.config/wtf` leaves it and the legacy tree in place, and every later migration does nothing |
| ConfigSpec.UnreadableCurrentKeepsLegacy | cfg/config_files.go:224-240 | when stat fails on `~/.config/wtf`, a returning migration reports nothing, copies every legacy entry below it, and keeps every entry outside it, the legacy tree included |
| ConfigSpec.HomeFileMigrationPanics | cfg/config_files.go:219-232 | when home is a regular file, stat of `~/.wtf` is ENOTDIR, not "not exist", and the migration panics with the copy's ENOTDIR, changing nothing |
| ConfigSpec.UnreachableLegacyPanics | cfg/config_files.go:219-232 | when stat cannot reach a missing `~/.wtf`, its permission error is not "not exist", and the migration panics with the copy's same error, changing nothing |
| ConfigSpec.XdgFileBlocksConfig | cfg/config_files.go:110-127 | when `~/.config` is a regular file, `createWtfConfigDir` returns silently and changes nothing, and `createWtfConfigFile` panics with ENOTDIR |
| ConfigSpec.InitializeFollowsMigration | cfg/config_files.go:57-58 | a fatal migration ends `Initialize` before any other step, and a returning `Initialize` reports the migration's warnings |
| ConfigSpec.InitializeSteps | cfg/config_files.go:57-62 | a returning `Initialize` ran all four steps, in order, each to a return |
| ConfigSpec.XdgStepAddsOnlyXdgDir | cfg/config_files.go:96-106 | a returning `createXdgConfigDir` adds at most `~/.config` and changes nothing |
| ConfigSpec.WtfStepAddsOnlyWtfDir | cfg/config_files.go:110-120 | a returning `createWtfConfigDir` adds at most `~/.config/wtf` and changes nothing |
| ConfigSpec.InitializeKeepsMigration | cfg/config_files.go:57-62 | after the migration, a returning `Initialize` keeps every entry the migration left except `config.yml`, adds nothing but `~/.config`, `~/.config/wtf` and `config.yml`, and changes an existing `config.yml` only by seeding it when empty |
| ConfigSpec.MigrationMirrorsLegacy | cfg/config_files.go:228-240 | a returning migration from `~/.wtf` to a missing `~/.config/wtf` has every legacy entry at the same place below `~/.config/wtf` |
| ConfigSpec.InitializeMovesLegacyTree | cfg/config_files.go:57-62 | with `~/.wtf` present and `~/.config/wtf` absent, a returning `Initialize` has every legacy entry at the same place below `~/.config/wtf`, unchanged except that an empty `config.yml` is seeded |
| ConfigSpec.InitializeEndsWithConfigFile | cfg/config_files.go:57-62 | a returning `Initialize` has a home directory and a non-empty `config.yml` |
| ConfigSpec.ConfigFileInDirectory | cfg/config_files.go:110-125 | in a well-formed tree, an existing `config.yml` sits in the configuration directory, which is a directory |
| ConfigSpec.InitializeProvisions | cfg/config_files.go:57-62 | after `Initialize` returns, `~/.config/wtf` is a directory holding a non-empty `config.yml` |
| ConfigSpec.InitializeIdempotent | cfg/config_files.go:57-62 | when stat works everywhere, running `Initialize` again after it returned changes nothing and reports nothing |
| ConfigFiles.EnsureDir | cfg/config_files.go:99-105 | the stat-then-mkdir steps end in the state and outcome `ConfigSpec.EnsureDir` gives |
| ConfigFiles.CreateXdgConfigDir | cfg/config_files.go:96-106 | ends in the state and outcome `ConfigSpec.CreateXdgConfigDir` gives |
| ConfigFiles.CreateWtfConfigDir | cfg/config_files.go:110-120 | ends in the state and outcome `ConfigSpec.CreateWtfConfigDir` gives |
| ConfigFiles.CreateFile | cfg/config_files.go:31-53 | ends in the state and result `ConfigSpec.CreateFile` gives |
| ConfigFiles.CreateWtfConfigFile | cfg/config_files.go:124-138 | ends in the state and outcome `ConfigSpec.CreateWtfConfigFile` gives |
| ConfigFiles.MigrateOldConfig | cfg/config_files.go:214-241 | ends in the state and outcome `ConfigSpec.MigrateOldConfig` gives |
| ConfigFiles.Initialize | cfg/config_files.go:57-62 | runs the four steps in order, stops at the first fatal one, and ends in the state and outcome `ConfigSpec.Initialize` gives |

## Left out

- `LoadWtfConfigFile` (lines 75-90): the YAML parsing belongs to an external library, and the rest only reports the error and exits.
- The `display*` functions (lines 140-172): terminal output only. A failed mkdir is modelled as its exit status and cause. The printed removal error of `migrateOldConfig` is the warning in `Done(warnings)`.
- `user.Current()`: the executing user is an input, `UserLookup`, which may fail or carry an empty home directory.
- Paths.Clean: `..` elements are not folded. Paths are resolved on their elements, so relative paths resolve as if rooted, and Windows separators are not modelled. A trailing separator is dropped: `Stat` and `Create` treat `…/config.yml/` as `…/config.yml`, where Unix reports ENOTDIR or EISDIR. This matters only to `CreateFile` called with a `fileName` ending in a separator. A `\` after `~` is accepted by `expandHomeDir`, as in the code, but is then an ordinary character of the path element.
- Disks.Copy: `Copy` is defined outside this file. It is modelled as `MkdirAll` of the destination followed by a merge of the source tree:
  - a copy that meets an unreadable or unwritable entry writes everything else it can reach, so what a failed copy leaves is a superset of what a copy that stops at the first failure, in whatever order it lists directories, would leave;
  - which error a failed copy returns among several is fixed by the model (permission first, then not-a-directory, then is-a-directory);
  - `MkdirAll` is all-or-nothing here: when one ancestor cannot be made, none is;
  - a destination inside the source is refused with "invalid argument" (the migration never asks for one);
  - a missing source fails with the error stat reports for it: a stat fault's permission error, ENOTDIR below a regular file, and "not exist" otherwise;
  - file modes are not copied.
- Disks.RemoveAll: whether an entry can be removed is a fault on the entry itself, rather than on its parent directory's permissions; removing the root is refused.
- Disks.Size: a directory's size is the constant 4096.
- Disks.Mkdir: a parent missing below a regular file is "not exist" here, where Unix reports ENOTDIR. The routines call mkdir only after stat said "not exist", which rules that case out.
- The permission argument of `os.Mkdir` and `ioutil.WriteFile`, and file handles, are left out.
- `defaultConfigFile` is defined outside this file. It is the constant `ConfigSpec.DefaultConfigFile`, and only its non-emptiness matters to the properties.
- Races between a stat and the call that follows it are not modelled: the model is single-threaded, and the faults are fixed for the whole run.
- `os.Exit` and `panic` do not stop anything. They are the `Fatal` outcome, and `Initialize` stops at the first one.
- ConfigSpec.InitializeIdempotent: stated only for disks where stat works everywhere. When stat fails on `~/.config/wtf` while `~/.wtf` exists, the first run copies the legacy tree and keeps it (`ConfigSpec.UnreadableCurrentKeepsLegacy`), and the second run copies it again over `~/.config/wtf`; whether that second run changes nothing is not proved.
