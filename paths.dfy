/** Home-directory expansion of configuration paths (`expandHomeDir`, `home`,
    `WtfConfigDir`), together with the part of `filepath.Join`/`filepath.Clean`
    that the expansion relies on. */
module Paths {
  import opened Errors

  /** The minimal XDG-compatible configuration directory. */
  const XdgConfigDir: string := "~/.config/"
  /** Where the first version of the configuration lived. */
  const WtfConfigDirV1: string := "~/.wtf/"
  /** Where the configuration lives now. */
  const WtfConfigDirV2: string := "~/.config/wtf/"

  /** What the lookup of the executing user hands back: the user's home
      directory as recorded for that user, or the lookup's error. */
  datatype UserLookup = User(homeDir: string) | LookupFailed(reason: string)

  /** A path element as the kernel resolves it: not empty, not ".", no separator. */
  predicate IsName(c: string) {
    c != "" && c != "." && '/' !in c
  }

  /** Length of the leading path element of `s`: the index of the first '/'. */
  function NameLength(s: string): (n: nat)
    ensures n <= |s|
    ensures '/' !in s[..n]
    ensures n < |s| ==> s[n] == '/'
  {
    if s == [] || s[0] == '/' then 0
    else
      var k := NameLength(s[1..]);
      assert s[..k + 1] == [s[0]] + s[1..][..k];
      k + 1
  }

  /** The elements of a path in order: separators collapse, "." elements vanish. */
  function Components(s: string): (cs: seq<string>)
    ensures forall c | c in cs :: IsName(c)
    decreases |s|
  {
    if s == [] then []
    else if s[0] == '/' then Components(s[1..])
    else
      var n := NameLength(s);
      if s[..n] == "." then Components(s[n..]) else [s[..n]] + Components(s[n..])
  }

  /** Path elements joined with single separators. */
  function Glue(cs: seq<string>): string {
    if cs == [] then ""
    else if |cs| == 1 then cs[0]
    else cs[0] + "/" + Glue(cs[1..])
  }

  /** Whether the path starts at the root. */
  predicate IsRooted(s: string) {
    s != [] && s[0] == '/'
  }

  /** `filepath.Clean` on a Unix host, without folding ".." elements: the
      shortest spelling of the same path, "." for an empty relative path. */
  function Clean(s: string): (r: string)
    ensures r != ""
  {
    var cs := Components(s);
    if IsRooted(s) then "/" + Glue(cs)
    else if cs == [] then "."
    else GlueNotRooted(cs); Glue(cs)
  }

  /** `filepath.Join(dir, elem)`: the non-empty arguments joined by a
      separator and cleaned; "" when both are empty. */
  function Join(dir: string, elem: string): (r: string)
    ensures r == "" <==> dir == "" && elem == ""
    // the result names the elements of `dir` followed by those of `elem`
    ensures Components(r) == Components(dir) + Components(elem)
  {
    if dir != "" then
      CleanComponents(dir + "/" + elem);
      ComponentsOfJoin(dir, elem);
      Clean(dir + "/" + elem)
    else if elem != "" then
      CleanComponents(elem);
      Clean(elem)
    else ""
  }

  /** A path that starts with the home marker in a form that may be expanded:
      "~" alone, or "~" followed by a separator. */
  predicate IsHomeRelative(path: string) {
    path != "" && path[0] == '~' && (|path| == 1 || path[1] == '/' || path[1] == '\\')
  }

  /** `home`: the home directory of the executing user. */
  function Home(user: UserLookup): (r: Result<string>)
    ensures r.Ok? <==> user.User? && user.homeDir != ""
    ensures r.Ok? ==> r.value == user.homeDir
    ensures user.LookupFailed? ==> r == Err(UserLookupFailed(user.reason))
    ensures user.User? && user.homeDir == "" ==> r == Err(NoHomeDir)
  {
    match user
    case LookupFailed(reason) => Err(UserLookupFailed(reason))
    case User(dir) => if dir == "" then Err(NoHomeDir) else Ok(dir)
  }

  /** `expandHomeDir`: replaces a leading home marker by the home directory. */
  function ExpandHomeDir(path: string, user: UserLookup): (r: Result<string>)
    // the empty path and a path without the marker come back unchanged
    ensures path == "" ==> r == Ok(path)
    ensures path != "" && path[0] != '~' ==> r == Ok(path)
    // "~user" forms are refused, whatever the user lookup would say
    ensures path != "" && path[0] == '~' && !IsHomeRelative(path) ==> r == Err(CannotExpandHomeDir)
    // otherwise the outcome is that of the home lookup
    ensures IsHomeRelative(path) ==> (r.Ok? <==> Home(user).Ok?)
    ensures IsHomeRelative(path) && Home(user).Err? ==> r == Err(Home(user).error)
    // and the expanded path names home's elements followed by the rest's
    ensures IsHomeRelative(path) && r.Ok? ==>
              r.value != "" &&
              Components(r.value) == Components(user.homeDir) + Components(path[1..])
  {
    if |path| == 0 then Ok(path)
    else if path[0] != '~' then Ok(path)
    else if |path| > 1 && path[1] != '/' && path[1] != '\\' then Err(CannotExpandHomeDir)
    else
      match Home(user)
      case Err(e) => Err(e)
      case Ok(dir) =>
        Ok(Join(dir, path[1..]))
  }

  /** `WtfConfigDir`: the absolute path of the configuration directory. */
  function WtfConfigDir(user: UserLookup): (r: Result<string>)
    ensures r.Ok? <==> Home(user).Ok?
    ensures r.Err? ==> r.error == Home(user).error
    ensures r.Ok? ==> r.value != "" && Components(r.value) == Components(user.homeDir) + [".config", "wtf"]
  {
    FixedDirComponents();
    ExpandHomeDir(WtfConfigDirV2, user)
  }

  /** `p, _ := expandHomeDir(path)`: the caller drops the error and goes on
      with the empty string the failed expansion returned. */
  function ExpandOrEmpty(path: string, user: UserLookup): (r: string)
    // "" stands both for the empty path and for a failed expansion
    ensures r == "" <==> path == "" || ExpandHomeDir(path, user).Err?
    ensures ExpandHomeDir(path, user).Ok? ==> r == ExpandHomeDir(path, user).value
  {
    ExpandHomeDir(path, user).GetOr("")
  }

  // ---------------------------------------------------------------------
  // Lemmas about paths

  /** A leading element followed by a separator is measured the same way
      whatever comes after the separator. */
  lemma {:induction false} NameLengthOfExtension(a: string, t: string)
    requires NameLength(a) < |a| || (t != [] && t[0] == '/')
    ensures NameLength(a + t) == NameLength(a)
    decreases |a|
  {
    if a != [] && a[0] != '/' {
      assert (a + t)[1..] == a[1..] + t;
      NameLengthOfExtension(a[1..], t);
    }
  }

  /** Joining two paths with a separator concatenates their elements. */
  lemma {:induction false} ComponentsOfJoin(a: string, b: string)
    ensures Components(a + "/" + b) == Components(a) + Components(b)
    decreases |a|
  {
    var s := a + "/" + b;
    if a == [] {
      assert s[1..] == b;
    } else if a[0] == '/' {
      assert s[1..] == a[1..] + "/" + b;
      ComponentsOfJoin(a[1..], b);
    } else {
      var n := NameLength(a);
      NameLengthOfExtension(a, "/" + b);
      assert s == a + ("/" + b);
      assert s[..n] == a[..n];
      assert s[n..] == a[n..] + "/" + b;
      ComponentsOfJoin(a[n..], b);
    }
  }

  /** A single element is its own only element. */
  lemma ComponentsOfName(c: string)
    requires IsName(c)
    ensures Components(c) == [c]
  {
    var n := NameLength(c);
    assert forall i | 0 <= i < |c| :: c[i] != '/';
    assert n == |c|;
    assert c[..n] == c;
    assert c[n..] == [];
  }

  /** Gluing well-formed elements and splitting again gives them back. */
  lemma {:induction false} ComponentsOfGlue(cs: seq<string>)
    requires forall c | c in cs :: IsName(c)
    ensures Components(Glue(cs)) == cs
  {
    if |cs| == 1 {
      ComponentsOfName(cs[0]);
    } else if |cs| > 1 {
      assert cs[0] in cs;
      ComponentsOfGlue(cs[1..]);
      ComponentsOfJoin(cs[0], Glue(cs[1..]));
      ComponentsOfName(cs[0]);
    }
  }

  /** Glued elements never start with a separator. */
  lemma GlueNotRooted(cs: seq<string>)
    requires cs != [] && forall c | c in cs :: IsName(c)
    ensures Glue(cs) != "" && !IsRooted(Glue(cs))
  {
    assert cs[0] in cs;
    assert '/' !in cs[0];
    assert cs[0][0] in cs[0];
    if |cs| > 1 {
      assert Glue(cs) == cs[0] + ("/" + Glue(cs[1..]));
    }
  }

  /** Cleaning a path does not change which elements it names. */
  lemma CleanComponents(s: string)
    ensures Components(Clean(s)) == Components(s)
  {
    var cs := Components(s);
    if IsRooted(s) {
      assert ("/" + Glue(cs))[1..] == Glue(cs);
      ComponentsOfGlue(cs);
    } else if cs == [] {
      assert NameLength(".") == 1;
      assert "."[1..] == [];
    } else {
      ComponentsOfGlue(cs);
    }
  }

  /** Cleaning keeps a path rooted exactly when it was rooted. */
  lemma CleanRooted(s: string)
    ensures IsRooted(Clean(s)) <==> IsRooted(s)
  {
    var cs := Components(s);
    if !IsRooted(s) && cs != [] {
      GlueNotRooted(cs);
    }
  }

  /** `filepath.Clean` is idempotent. */
  lemma CleanIdempotent(s: string)
    ensures Clean(Clean(s)) == Clean(s)
  {
    CleanComponents(s);
    CleanRooted(s);
  }

  /** The elements of "/<a>/", for a single element a. */
  lemma ComponentsOfOneDir(a: string)
    requires IsName(a)
    ensures Components("/" + a + "/") == [a]
  {
    ComponentsOfName(a);
    assert "/" + a + "/" == "" + "/" + (a + "/" + "");
    ComponentsOfJoin("", a + "/" + "");
    ComponentsOfJoin(a, "");
  }

  /** The elements of "/<a>/<b>/", for single elements a and b. */
  lemma ComponentsOfTwoDirs(a: string, b: string)
    requires IsName(a) && IsName(b)
    ensures Components("/" + a + "/" + b + "/") == [a, b]
  {
    ComponentsOfName(a);
    ComponentsOfName(b);
    assert "/" + a + "/" + b + "/" == "" + "/" + (a + "/" + (b + "/" + ""));
    ComponentsOfJoin("", a + "/" + (b + "/" + ""));
    ComponentsOfJoin(a, b + "/" + "");
    ComponentsOfJoin(b, "");
  }

  /** The elements that the three fixed directories add to the home directory. */
  lemma FixedDirComponents()
    ensures Components(XdgConfigDir[1..]) == [".config"]
    ensures Components(WtfConfigDirV1[1..]) == [".wtf"]
    ensures Components(WtfConfigDirV2[1..]) == [".config", "wtf"]
  {
    assert IsName(".config") by { assert forall i | 0 <= i < |".config"| :: ".config"[i] != '/'; }
    assert IsName(".wtf") by { assert forall i | 0 <= i < |".wtf"| :: ".wtf"[i] != '/'; }
    assert IsName("wtf") by { assert forall i | 0 <= i < |"wtf"| :: "wtf"[i] != '/'; }
    assert XdgConfigDir[1..] == "/" + ".config" + "/";
    assert WtfConfigDirV1[1..] == "/" + ".wtf" + "/";
    assert WtfConfigDirV2[1..] == "/" + ".config" + "/" + "wtf" + "/";
    ComponentsOfOneDir(".config");
    ComponentsOfOneDir(".wtf");
    ComponentsOfTwoDirs(".config", "wtf");
  }

  /** The fixed directories expand under the home directory, to the elements
      `.config`, `.wtf` and `.config/wtf`. */
  lemma FixedDirsExpand(user: UserLookup)
    ensures Home(user).Ok? ==>
              && ExpandOrEmpty(XdgConfigDir, user) != ""
              && ExpandOrEmpty(WtfConfigDirV1, user) != ""
              && ExpandOrEmpty(WtfConfigDirV2, user) != ""
              && Components(ExpandOrEmpty(XdgConfigDir, user)) == Components(user.homeDir) + [".config"]
              && Components(ExpandOrEmpty(WtfConfigDirV1, user)) == Components(user.homeDir) + [".wtf"]
              && Components(ExpandOrEmpty(WtfConfigDirV2, user)) == Components(user.homeDir) + [".config", "wtf"]
  {
    FixedDirComponents();
  }

  /** "~" alone expands to the cleaned home directory, and to the home
      directory itself when that is already clean. */
  lemma ExpandBareMarker(user: UserLookup)
    requires Home(user).Ok?
    ensures ExpandHomeDir("~", user) == Ok(Clean(user.homeDir))
    ensures Clean(user.homeDir) == user.homeDir ==> ExpandHomeDir("~", user) == Ok(user.homeDir)
  {
    var h := user.homeDir;
    assert "~"[1..] == "";
    calc {
      Components(h + "/" + "");
      { ComponentsOfJoin(h, ""); }
      Components(h) + Components("");
      Components(h);
    }
    assert (h + "/" + "")[0] == h[0];
  }
}
