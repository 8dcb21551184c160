/** The part of the operating system the bootstrap code talks to, as values:
    a tree of directories and regular files keyed by path elements, and the
    os calls `Stat`, `Mkdir`, `Create`, `WriteFile`, `RemoveAll`, together
    with the recursive `Copy` the migration uses. */
module Disks {
  import opened Errors
  import opened Paths

  newtype byte = x: int | 0 <= x < 256

  /** A resolved path: the elements from the root down. */
  type FsPath = seq<string>

  datatype Entry = Directory | RegularFile(data: seq<byte>)

  /** The size stat reports for a directory (one block on common Linux file systems). */
  const DirectorySize: nat := 4096

  /** `FileInfo.Size()`. */
  function Size(e: Entry): (s: nat)
    // only an empty regular file has size 0
    ensures s == 0 <==> e == RegularFile([])
  {
    match e
    case Directory => DirectorySize
    case RegularFile(data) => |data|
  }

  /** Paths where the environment makes an os call fail for a reason other
      than the tree's shape: `stat` fails (say, a directory on the way is not
      searchable), or writing fails (a read-only or foreign-owned location). */
  datatype Faults = Faults(stat: set<FsPath>, write: set<FsPath>)

  datatype Disk = Disk(entries: map<FsPath, Entry>, faults: Faults)

  /** What an os call that changes the disk leaves behind, and its error. */
  datatype Effect = Effect(disk: Disk, err: Option<Error>)

  function Parent(p: FsPath): FsPath
    requires p != []
  {
    p[..|p| - 1]
  }

  /** A well-formed tree: the root is a directory, and every other entry
      sits in a directory. */
  ghost predicate Tree(m: map<FsPath, Entry>) {
    && [] in m && m[[]] == Directory
    && forall p | p in m && p != [] :: Parent(p) in m && m[Parent(p)] == Directory
  }

  /** Where the entries of the subtree rooted at `s` land when it is moved to `t`. */
  function Targets(m: map<FsPath, Entry>, s: FsPath, t: FsPath): set<FsPath> {
    set q | q in m && s <= q :: t + q[|s|..]
  }

  /** The entries of the subtree rooted at `s`, moved to be rooted at `t`. */
  function Mirror(m: map<FsPath, Entry>, s: FsPath, t: FsPath): (r: map<FsPath, Entry>)
    ensures forall q | q in m && s <= q :: t + q[|s|..] in r && r[t + q[|s|..]] == m[q]
    ensures forall k | k in r :: t <= k && s + k[|t|..] in m && r[k] == m[s + k[|t|..]]
  {
    TargetsComeFromSubtree(m, s, t);
    MovedPathsReturn(s, t);
    map k | k in Targets(m, s, t) :: m[s + k[|t|..]]
  }

  /** The entries outside the subtree rooted at `p`. */
  function Prune(m: map<FsPath, Entry>, p: FsPath): (r: map<FsPath, Entry>)
    ensures forall q | q in r :: q in m && !(p <= q) && r[q] == m[q]
    ensures forall q | q in m && !(p <= q) :: q in r
  {
    map q | q in m && !(p <= q) :: m[q]
  }

  function Fail(d: Disk, e: Error): Effect {
    Effect(d, Some(e))
  }

  /** `os.Stat`: exists (with the entry), does not exist, or another error. */
  datatype StatResult = Found(entry: Entry) | NotExist | StatFailed(err: Error)

  /** Some strict prefix of `p` is a regular file: the lookup of `p` meets a
      file where it needs a directory. */
  predicate UnderFile(m: map<FsPath, Entry>, p: FsPath) {
    exists i | 0 <= i < |p| :: p[..i] in m && m[p[..i]].RegularFile?
  }

  function Stat(d: Disk, path: string): (r: StatResult)
    ensures r.Found? <==> path != "" && Components(path) !in d.faults.stat && Components(path) in d.entries
    ensures r.Found? ==> r.entry == d.entries[Components(path)]
    // a path below a regular file is ENOTDIR, which is not "not exist"
    ensures r.StatFailed? <==>
              path != "" &&
              (Components(path) in d.faults.stat || (Components(path) !in d.entries && UnderFile(d.entries, Components(path))))
    ensures r.StatFailed? && Components(path) !in d.faults.stat ==> r.err == ErrNotDir
    ensures r.StatFailed? && Components(path) in d.faults.stat ==> r.err == ErrPermission
    ensures r.NotExist? ==> path == "" || !UnderFile(d.entries, Components(path))
  {
    if path == "" then NotExist
    else
      var p := Components(path);
      if p in d.faults.stat then StatFailed(ErrPermission)
      else if p in d.entries then Found(d.entries[p])
      else if UnderFile(d.entries, p) then StatFailed(ErrNotDir)
      else NotExist
  }

  /** `os.Mkdir`: creates one directory; the parent must already be one. */
  function Mkdir(d: Disk, path: string): (e: Effect)
    ensures e.disk.faults == d.faults
    ensures e.err.Some? ==> e.disk == d
    ensures e.err.None? <==>
              && path != ""
              && Components(path) !in d.entries
              && Components(path) != []
              && Parent(Components(path)) in d.entries
              && d.entries[Parent(Components(path))] == Directory
              && Components(path) !in d.faults.write
    ensures e.err.None? ==> e.disk.entries == d.entries[Components(path) := Directory]
    ensures path != "" && Components(path) in d.entries ==> e.err == Some(ErrExist)
    ensures Tree(d.entries) ==> Tree(e.disk.entries)
  {
    if path == "" then Fail(d, ErrNotExist)
    else
      var p := Components(path);
      if p in d.entries || p == [] then Fail(d, ErrExist)
      else if Parent(p) !in d.entries then Fail(d, ErrNotExist)
      else if d.entries[Parent(p)] != Directory then Fail(d, ErrNotDir)
      else if p in d.faults.write then Fail(d, ErrPermission)
      else Effect(d.(entries := d.entries[p := Directory]), None)
  }

  /** `os.WriteFile`: creates or truncates a regular file and writes `data`. */
  function WriteFile(d: Disk, path: string, data: seq<byte>): (e: Effect)
    ensures e.disk.faults == d.faults
    ensures e.err.Some? ==> e.disk == d
    ensures e.err.None? <==>
              && path != ""
              && Components(path) != []
              && Parent(Components(path)) in d.entries
              && d.entries[Parent(Components(path))] == Directory
              && (Components(path) in d.entries ==> d.entries[Components(path)] != Directory)
              && Components(path) !in d.faults.write
    ensures e.err.None? ==> e.disk.entries == d.entries[Components(path) := RegularFile(data)]
    ensures Tree(d.entries) ==> Tree(e.disk.entries)
  {
    if path == "" then Fail(d, ErrNotExist)
    else
      var p := Components(path);
      if p == [] then Fail(d, ErrIsDir)
      else if Parent(p) !in d.entries then Fail(d, ErrNotExist)
      else if d.entries[Parent(p)] != Directory then Fail(d, ErrNotDir)
      else if p in d.entries && d.entries[p] == Directory then Fail(d, ErrIsDir)
      else if p in d.faults.write then Fail(d, ErrPermission)
      else Effect(d.(entries := d.entries[p := RegularFile(data)]), None)
  }

  /** `os.Create`: creates or truncates a regular file, leaving it empty. */
  function Create(d: Disk, path: string): (e: Effect)
    ensures e.disk.faults == d.faults
    ensures e.err.Some? ==> e.disk == d
    ensures e.err.None? <==>
              && path != ""
              && Components(path) != []
              && Parent(Components(path)) in d.entries
              && d.entries[Parent(Components(path))] == Directory
              && (Components(path) in d.entries ==> d.entries[Components(path)] != Directory)
              && Components(path) !in d.faults.write
    ensures e.err.None? ==> e.disk.entries == d.entries[Components(path) := RegularFile([])]
    ensures Tree(d.entries) && path != "" && Components(path) in d.entries ==>
              (e.err.None? <==> d.entries[Components(path)] != Directory && Components(path) !in d.faults.write)
    ensures Tree(d.entries) ==> Tree(e.disk.entries)
  {
    WriteFile(d, path, [])
  }

  /** Whether `os.RemoveAll` can take `q` away: nothing at or below it is
      write-protected. */
  predicate Removable(d: Disk, q: FsPath) {
    forall x | x in d.entries && q <= x :: x !in d.faults.write
  }

  /** What is left after removing everything below `p` that can be removed. */
  function Sweep(d: Disk, p: FsPath): (r: map<FsPath, Entry>)
    ensures forall q | q in r :: q in d.entries && r[q] == d.entries[q]
    ensures forall q | q in d.entries :: (q in r <==> !(p <= q && Removable(d, q)))
  {
    map q | q in d.entries && !(p <= q && Removable(d, q)) :: d.entries[q]
  }

  /** `os.RemoveAll`: removes a path and everything below it; a missing path
      is not an error. It removes what it can and reports the first entry it
      could not remove. */
  function RemoveAll(d: Disk, path: string): (e: Effect)
    ensures e.disk.faults == d.faults
    ensures path == "" || Components(path) !in d.entries ==> e == Effect(d, None)
    // it only removes, and only below the path
    ensures forall q | q in e.disk.entries :: q in d.entries && e.disk.entries[q] == d.entries[q]
    ensures forall q | q in d.entries && !(Components(path) <= q) :: q in e.disk.entries
    // it fails exactly when something below the path is write-protected, or the path is the root
    ensures e.err.None? <==>
              path == "" || Components(path) !in d.entries || (Components(path) != [] && Removable(d, Components(path)))
    ensures e.err.None? && path != "" && Components(path) in d.entries ==>
              e.disk.entries == Prune(d.entries, Components(path))
    // an entry below the path goes exactly when nothing at or below it is write-protected
    ensures path != "" && Components(path) in d.entries && Components(path) != [] ==>
              forall q | q in d.entries && Components(path) <= q :: (q in e.disk.entries <==> !Removable(d, q))
    // after a failure the path itself is still there
    ensures e.err.Some? ==> Components(path) in e.disk.entries
    ensures Tree(d.entries) ==> Tree(e.disk.entries)
  {
    if path == "" then Effect(d, None)
    else
      var p := Components(path);
      if p !in d.entries then Effect(d, None)
      else if p == [] then Fail(d, ErrPermission)
      else
        SweepKeepsTree(d, p);
        SweepComplete(d, p);
        Effect(d.(entries := Sweep(d, p)), if Removable(d, p) then None else Some(ErrPermission))
  }

  /** The ancestors of `t` that `os.MkdirAll` has to make, as directories. */
  function MissingAncestors(m: map<FsPath, Entry>, t: FsPath): (r: map<FsPath, Entry>)
    ensures forall q | q in r :: q < t && q !in m && r[q] == Directory
    ensures forall i | 0 <= i < |t| :: t[..i] in m || t[..i] in r
  {
    map i | 0 <= i < |t| && t[..i] !in m :: t[..i] := Directory
  }

  /** `os.MkdirAll` can make every ancestor of `t`: those there are
      directories, and none of those missing is write-protected. */
  predicate AncestorsReady(d: Disk, t: FsPath) {
    forall i | 0 <= i < |t| ::
      if t[..i] in d.entries then d.entries[t[..i]] == Directory else t[..i] !in d.faults.write
  }

  /** Copying the entry `s + r` to `t + r` fails by itself: the source cannot
      be read, the target cannot be written, or one of the two is a directory
      and the other is not. */
  predicate Blocked(d: Disk, s: FsPath, t: FsPath, r: FsPath) {
    || s + r in d.faults.stat
    || t + r in d.faults.write
    || (s + r in d.entries && t + r in d.entries &&
        (d.entries[s + r] == Directory) != (d.entries[t + r] == Directory))
  }

  /** The copy gets as far as `t + r`: no entry on the way down from `t` to it,
      itself included, is blocked. */
  predicate Reached(d: Disk, s: FsPath, t: FsPath, r: FsPath) {
    forall j | 0 <= j <= |r| :: !Blocked(d, s, t, r[..j])
  }

  /** The part of the mirror a copy that stops at blocked entries writes. */
  function Partial(d: Disk, s: FsPath, t: FsPath): (p: map<FsPath, Entry>)
    ensures forall k | k in p ::
              t <= k && Reached(d, s, t, k[|t|..]) && s + k[|t|..] in d.entries && p[k] == d.entries[s + k[|t|..]]
    ensures forall q | q in d.entries && s <= q && Reached(d, s, t, q[|s|..]) ::
              t + q[|s|..] in p && p[t + q[|s|..]] == d.entries[q]
  {
    var mirror := Mirror(d.entries, s, t);
    MovedPathsReturn(s, t);
    map k | k in mirror && Reached(d, s, t, k[|t|..]) :: mirror[k]
  }

  /** The error a copy stopped by blocked entries reports. */
  function CopyError(d: Disk, s: FsPath, t: FsPath): Error {
    if exists q | q in d.entries && s <= q :: q in d.faults.stat || t + q[|s|..] in d.faults.write then ErrPermission
    else if exists q | q in d.entries && s <= q && d.entries[q] == Directory :: t + q[|s|..] in d.entries then ErrNotDir
    else ErrIsDir
  }

  /** The recursive copy the migration calls: it makes the missing ancestors
      of `dst`, then copies the tree at `src` entry by entry to the same
      places below `dst`, merging into what is there. It stops below an
      entry it cannot copy and keeps what it has written. */
  function Copy(d: Disk, src: string, dst: string): (e: Effect)
    ensures e.disk.faults == d.faults
    // a copy only adds and overwrites: nothing is removed
    ensures forall q | q in d.entries :: q in e.disk.entries
    // what it writes is a new ancestor directory of the destination, or lies
    // below the destination and mirrors the entry at the same place below the source
    ensures var s, t := Components(src), Components(dst);
            forall q | q in e.disk.entries && (q !in d.entries || e.disk.entries[q] != d.entries[q]) ::
              || (q < t && e.disk.entries[q] == Directory)
              || (t <= q && s + q[|t|..] in d.entries && e.disk.entries[q] == d.entries[s + q[|t|..]])
    // it succeeds exactly when it can make the ancestors and reach every source entry
    ensures var s, t := Components(src), Components(dst);
            e.err.None? <==>
              && src != "" && dst != "" && s in d.entries && !(s <= t) && AncestorsReady(d, t)
              && forall q | q in d.entries && s <= q :: Reached(d, s, t, q[|s|..])
    ensures var s, t := Components(src), Components(dst);
            e.err.None? ==> e.disk.entries == d.entries + MissingAncestors(d.entries, t) + Mirror(d.entries, s, t)
    // a failure before the first write changes nothing; a later one keeps what was written
    ensures var s, t := Components(src), Components(dst);
            if src != "" && dst != "" && s in d.entries && !(s <= t) && AncestorsReady(d, t)
            then e.disk.entries == d.entries + MissingAncestors(d.entries, t) + Partial(d, s, t)
            else e.disk == d
    ensures Tree(d.entries) ==> Tree(e.disk.entries)
  {
    if src == "" || dst == "" then Fail(d, ErrNotExist)
    else
      var s, t := Components(src), Components(dst);
      if s !in d.entries then
        Fail(d, if s in d.faults.stat then ErrPermission else if UnderFile(d.entries, s) then ErrNotDir else ErrNotExist)
      else if s <= t then Fail(d, ErrInvalid)
      else if !AncestorsReady(d, t) then
        Fail(d, if exists i | 0 <= i < |t| && t[..i] in d.entries :: d.entries[t[..i]] != Directory then ErrNotDir else ErrPermission)
      else
        CopyInto(d, s, t)
  }

  /** The copy once its checks have passed: make the ancestors, then write
      what can be reached. */
  function CopyInto(d: Disk, s: FsPath, t: FsPath): (e: Effect)
    requires AncestorsReady(d, t)
    ensures e.disk.faults == d.faults
    ensures e.disk.entries == d.entries + MissingAncestors(d.entries, t) + Partial(d, s, t)
    ensures forall q | q in e.disk.entries && (q !in d.entries || e.disk.entries[q] != d.entries[q]) ::
              || (q < t && e.disk.entries[q] == Directory)
              || (t <= q && s + q[|t|..] in d.entries && e.disk.entries[q] == d.entries[s + q[|t|..]])
    ensures e.err.None? <==> forall q | q in d.entries && s <= q :: Reached(d, s, t, q[|s|..])
    ensures e.err.None? ==> e.disk.entries == d.entries + MissingAncestors(d.entries, t) + Mirror(d.entries, s, t)
    ensures Tree(d.entries) ==> Tree(e.disk.entries)
  {
    CopyKeepsTree(d, s, t);
    CopyComplete(d, s, t);
    CopyWrites(d, s, t);
    var err := if forall q | q in d.entries && s <= q :: Reached(d, s, t, q[|s|..]) then None else Some(CopyError(d, s, t));
    Effect(d.(entries := d.entries + MissingAncestors(d.entries, t) + Partial(d, s, t)), err)
  }

  /** A copy whose source is missing fails, changing nothing, with the error
      stat reports for the source. */
  lemma CopyMissingSource(d: Disk, src: string, dst: string)
    requires src != "" && dst != "" && Components(src) !in d.entries
    ensures Copy(d, src, dst) == Fail(d, if Stat(d, src).StatFailed? then Stat(d, src).err else ErrNotExist)
  {
  }

  // ---------------------------------------------------------------------
  // Lemmas about trees

  /** Every prefix of an entry's path is an entry, and a directory unless it
      is the entry itself. */
  lemma {:induction false} AncestorsPresent(m: map<FsPath, Entry>, p: FsPath, a: FsPath)
    requires Tree(m) && p in m && a <= p
    ensures a in m
    ensures a != p ==> m[a] == Directory
    decreases |p|
  {
    if a != p {
      assert a <= Parent(p);
      AncestorsPresent(m, Parent(p), a);
    }
  }

  /** Nothing lies below a path that is not in the tree. */
  lemma NothingBelowMissing(m: map<FsPath, Entry>, t: FsPath)
    requires Tree(m) && t !in m
    ensures forall q | q in m :: !(t <= q)
  {
    forall q | q in m ensures !(t <= q) {
      if t <= q { AncestorsPresent(m, q, t); }
    }
  }

  /** A path moved from below `s` to below `t` and moved back is itself. */
  lemma MovedPathsReturn(s: FsPath, t: FsPath)
    ensures forall q | s <= q :: (t + q[|s|..])[|t|..] == q[|s|..] && s + q[|s|..] == q
  {
    forall q | s <= q ensures (t + q[|s|..])[|t|..] == q[|s|..] && s + q[|s|..] == q {
      assert q == q[..|s|] + q[|s|..];
    }
  }

  /** Each target of a move is the image of an entry below the source. */
  lemma TargetsComeFromSubtree(m: map<FsPath, Entry>, s: FsPath, t: FsPath)
    ensures forall k | k in Targets(m, s, t) :: t <= k && s + k[|t|..] in m
  {
    forall k | k in Targets(m, s, t) ensures t <= k && s + k[|t|..] in m {
      var q :| q in m && s <= q && k == t + q[|s|..];
      MovedPathsReturn(s, t);
    }
  }

  /** Removing only what can be removed leaves a well-formed tree: whatever
      stays keeps its parent, because a removable parent takes its whole
      subtree with it. */
  lemma SweepKeepsTree(d: Disk, p: FsPath)
    requires p != []
    ensures Tree(d.entries) ==> Tree(Sweep(d, p))
  {
    if Tree(d.entries) {
      var r := Sweep(d, p);
      forall q | q in r && q != [] ensures Parent(q) in r && r[Parent(q)] == Directory {
        var a := Parent(q);
        assert a <= q;
        assert p <= a && Removable(d, a) ==> p <= q && Removable(d, q);
      }
    }
  }

  /** With nothing below `p` write-protected, `RemoveAll` takes the whole subtree. */
  lemma SweepComplete(d: Disk, p: FsPath)
    ensures Removable(d, p) ==> Sweep(d, p) == Prune(d.entries, p)
  {
    if Removable(d, p) {
      forall q | q in d.entries && p <= q ensures Removable(d, q) {
        forall x | x in d.entries && q <= x ensures x !in d.faults.write {
          assert p <= x;
        }
      }
      assert forall q :: q in Sweep(d, p) <==> q in Prune(d.entries, p);
    }
  }

  /** `MkdirAll` keeps the tree well formed and leaves every ancestor of `t` a directory. */
  lemma GrownTree(d: Disk, t: FsPath)
    requires Tree(d.entries) && AncestorsReady(d, t)
    ensures var g := d.entries + MissingAncestors(d.entries, t);
            && Tree(g)
            && forall i | 0 <= i < |t| :: t[..i] in g && g[t[..i]] == Directory
  {
    var m := d.entries;
    var a := MissingAncestors(m, t);
    var g := m + a;
    forall k | k in g && k != [] ensures Parent(k) in g && g[Parent(k)] == Directory {
      if k in a {
        var i := |k|;
        assert k == t[..i];
        assert Parent(k) == t[..i - 1];
      } else {
        assert Parent(k) !in a;
      }
    }
  }

  /** A copied entry below the copy's root has its parent copied, as a directory. */
  lemma PartialInnerParent(d: Disk, s: FsPath, t: FsPath, r: FsPath)
    requires Tree(d.entries) && r != [] && t + r in Partial(d, s, t)
    ensures t + r[..|r| - 1] in Partial(d, s, t) && Partial(d, s, t)[t + r[..|r| - 1]] == Directory
  {
    var pr := r[..|r| - 1];
    assert s + r in d.entries && Reached(d, s, t, r) by {
      assert (t + r)[|t|..] == r;
    }
    assert s + pr in d.entries && d.entries[s + pr] == Directory by {
      ParentOfExtension(s, r);
    }
    assert Reached(d, s, t, pr) by {
      ReachedParent(d, s, t, r);
    }
    assert s <= s + pr && (s + pr)[|s|..] == pr;
  }

  /** What reaches an entry of the copy reaches its parent. */
  lemma ReachedParent(d: Disk, s: FsPath, t: FsPath, r: FsPath)
    requires r != [] && Reached(d, s, t, r)
    ensures Reached(d, s, t, r[..|r| - 1])
  {
    var pr := r[..|r| - 1];
    forall j | 0 <= j <= |pr| ensures !Blocked(d, s, t, pr[..j]) {
      assert pr[..j] == r[..j];
    }
  }

  /** Writing a map `p` rooted at `t` over a tree `g` keeps it a tree when
      `t`'s parent is a directory of `g`, every entry of `p` below `t` has
      its parent in `p` as a directory, and no directory of `g` is
      overwritten by anything but a directory. */
  lemma OverlayKeepsTree(g: map<FsPath, Entry>, p: map<FsPath, Entry>, t: FsPath)
    requires Tree(g)
    requires t != [] ==> Parent(t) in g && g[Parent(t)] == Directory
    requires forall k | k in p :: t <= k
    requires forall k | k in p && k != t :: k != [] && Parent(k) in p && p[Parent(k)] == Directory
    requires forall k | k in p && k in g && g[k] == Directory :: p[k] == Directory
    ensures Tree(g + p)
  {
    forall k | k in g + p && k != [] ensures Parent(k) in g + p && (g + p)[Parent(k)] == Directory {
      if k == t {
        assert Parent(k) !in p by { assert |Parent(k)| < |t|; }
      }
    }
  }

  /** The parent of a path extended below `t` stays below `t`. */
  lemma ParentOfExtension(t: FsPath, r: FsPath)
    requires r != []
    ensures Parent(t + r) == t + r[..|r| - 1]
  {
    assert (t + r)[..|t + r| - 1] == t + r[..|r| - 1];
  }

  /** A copied entry other than the copy's root has its parent copied, as a directory. */
  lemma PartialParent(d: Disk, s: FsPath, t: FsPath, k: FsPath)
    requires Tree(d.entries) && k in Partial(d, s, t) && k != t
    ensures k != [] && Parent(k) in Partial(d, s, t) && Partial(d, s, t)[Parent(k)] == Directory
  {
    var r := k[|t|..];
    assert k == t + r && r != [];
    PartialInnerParent(d, s, t, r);
    ParentOfExtension(t, r);
  }

  /** Every copied entry below the copy's root has its parent copied, as a directory. */
  lemma PartialClosed(d: Disk, s: FsPath, t: FsPath)
    requires Tree(d.entries)
    ensures var p := Partial(d, s, t);
            forall k | k in p && k != t :: k != [] && Parent(k) in p && p[Parent(k)] == Directory
  {
    forall k | k in Partial(d, s, t) && k != t
      ensures k != [] && Parent(k) in Partial(d, s, t) && Partial(d, s, t)[Parent(k)] == Directory
    {
      PartialParent(d, s, t, k);
    }
  }

  /** The copy overwrites a directory only with a directory. */
  lemma PartialKeepsDirectories(d: Disk, s: FsPath, t: FsPath)
    ensures var g, p := d.entries + MissingAncestors(d.entries, t), Partial(d, s, t);
            forall k | k in p && k in g && g[k] == Directory :: p[k] == Directory
  {
    var g, p := d.entries + MissingAncestors(d.entries, t), Partial(d, s, t);
    forall k | k in p && k in g && g[k] == Directory ensures p[k] == Directory {
      OverwrittenParent(d, s, t, k);
    }
  }

  /** An entry the copy overwrites keeps being a directory when it was one. */
  lemma OverwrittenParent(d: Disk, s: FsPath, t: FsPath, a: FsPath)
    requires a in d.entries + MissingAncestors(d.entries, t)
    requires (d.entries + MissingAncestors(d.entries, t))[a] == Directory
    requires a in Partial(d, s, t)
    ensures Partial(d, s, t)[a] == Directory
  {
    var r := a[|t|..];
    assert a == t + r && r[..|r|] == r;
    assert a !in MissingAncestors(d.entries, t);
  }

  /** Making the ancestors of `t` and copying what can be reached below it
      keeps the tree well formed. */
  lemma CopyKeepsTree(d: Disk, s: FsPath, t: FsPath)
    requires AncestorsReady(d, t)
    ensures Tree(d.entries) ==> Tree(d.entries + MissingAncestors(d.entries, t) + Partial(d, s, t))
  {
    if Tree(d.entries) {
      var g := d.entries + MissingAncestors(d.entries, t);
      GrownTree(d, t);
      if t != [] {
        assert Parent(t) == t[..|t| - 1];
      }
      PartialClosed(d, s, t);
      PartialKeepsDirectories(d, s, t);
      OverlayKeepsTree(g, Partial(d, s, t), t);
    }
  }

  /** A successful copy puts every source entry at the same place below the
      destination, and leaves every entry outside the destination alone. */
  lemma CopiedTree(d: Disk, src: string, dst: string)
    requires Copy(d, src, dst).err.None?
    ensures var s, t, e := Components(src), Components(dst), Copy(d, src, dst).disk.entries;
            && (forall q | q in d.entries && s <= q :: t + q[|s|..] in e && e[t + q[|s|..]] == d.entries[q])
            && (forall q | q in d.entries && !(t <= q) :: q in e && e[q] == d.entries[q])
  {
    var s, t := Components(src), Components(dst);
    var a, mirror := MissingAncestors(d.entries, t), Mirror(d.entries, s, t);
    assert Copy(d, src, dst).disk.entries == d.entries + a + mirror;
    forall q | q in d.entries && s <= q ensures t + q[|s|..] in d.entries + a + mirror {
      assert t + q[|s|..] in mirror;
    }
  }

  /** What a copy writes: new ancestor directories of `t`, and entries below
      `t` that mirror the source. */
  lemma CopyWrites(d: Disk, s: FsPath, t: FsPath)
    ensures var e := d.entries + MissingAncestors(d.entries, t) + Partial(d, s, t);
            forall q | q in e && (q !in d.entries || e[q] != d.entries[q]) ::
              || (q < t && e[q] == Directory)
              || (t <= q && s + q[|t|..] in d.entries && e[q] == d.entries[s + q[|t|..]])
  {
  }

  /** The copy's root is written when stat reaches the source, the
      destination is writable, and nothing is there yet. */
  lemma RootReached(d: Disk, s: FsPath, t: FsPath)
    requires s in d.entries && s !in d.faults.stat
    requires t !in d.entries && t !in d.faults.write
    ensures t in Partial(d, s, t) && Partial(d, s, t)[t] == d.entries[s]
  {
    var empty: FsPath := [];
    assert s + empty == s && t + empty == t && empty[..0] == empty;
    assert Reached(d, s, t, empty);
    assert s <= s && s[|s|..] == empty;
  }

  /** A copy that reaches every source entry writes the whole mirror. */
  lemma CopyComplete(d: Disk, s: FsPath, t: FsPath)
    ensures (forall q | q in d.entries && s <= q :: Reached(d, s, t, q[|s|..])) ==>
              Partial(d, s, t) == Mirror(d.entries, s, t)
  {
    if forall q | q in d.entries && s <= q :: Reached(d, s, t, q[|s|..]) {
      var p, mirror := Partial(d, s, t), Mirror(d.entries, s, t);
      forall k | k in mirror ensures k in p {
        var q := s + k[|t|..];
        assert s <= q && q[|s|..] == k[|t|..];
        assert k == t + q[|s|..];
      }
      assert forall k :: k in p <==> k in mirror;
    }
  }

  /** Copying the subtree at `s` to a fresh place `t` that shares no entry
      with it keeps every old entry and puts every entry below `s` at the
      same place below `t`, outside the subtree at `s`. */
  lemma MoveSubtree(m: map<FsPath, Entry>, a: map<FsPath, Entry>, s: FsPath, t: FsPath, i: nat)
    requires forall q | q in m :: !(t <= q)
    requires forall q | q in a :: q < t && q !in m
    requires i < |s| && i < |t| && s[i] != t[i]
    ensures forall q | q in m :: q in m + a + Mirror(m, s, t) && (m + a + Mirror(m, s, t))[q] == m[q]
    ensures forall q | q in m && s <= q ::
              && t + q[|s|..] in m + a + Mirror(m, s, t)
              && (m + a + Mirror(m, s, t))[t + q[|s|..]] == m[q]
              && !(s <= t + q[|s|..])
    // nothing the copy adds lies below the source
    ensures forall q | q in m + a + Mirror(m, s, t) && s <= q :: q in m && (m + a + Mirror(m, s, t))[q] == m[q]
  {
    var mirror := Mirror(m, s, t);
    forall q | q in m ensures q !in mirror && q !in a {
    }
    forall q | q in m + a + mirror && s <= q ensures q in m {
      TargetsComeFromSubtree(m, s, t);
    }
    forall q | q in m && s <= q
      ensures t + q[|s|..] in m + a + mirror && (m + a + mirror)[t + q[|s|..]] == m[q]
      ensures !(s <= t + q[|s|..])
    {
      var k := t + q[|s|..];
      assert k in mirror && mirror[k] == m[q];
      assert k[i] == t[i];
    }
  }
}
