/** The SSH exec helpers: the destination path of a command, the per-path
    permissions of a user, the rule that decides whether an external command
    (rsync, git) may run against a path given the user's virtual folders and
    extension filters, and the link-safety flag added to rsync. */
module SshCommand {
  import opened Common
  import opened VirtualPath

  function Last(args: seq<string>): string
    requires args != []
  {
    args[|args| - 1]
  }

  /** A cleaned, rooted path, optionally ending in a slash: after the leading
      empty component every component is a name, except an empty last one. */
  predicate IsDestPath(r: string) {
    |r| > 0 && r[0] == '/' &&
    var parts := Split(r);
    parts[0] == "" &&
    forall i :: 1 <= i < |parts| ==> IsName(parts[i]) || (i == |parts| - 1 && parts[i] == "")
  }

  /** The destination of an exec command: its last argument rooted at `/`
      and cleaned, with the slash the argument ended in kept; no argument
      gives the empty path. */
  function GetDestPath(args: seq<string>): (r: string)
    ensures args == [] <==> r == ""
    ensures args != [] ==> IsDestPath(r) && Segments(r) == Segments(Last(args))
    ensures args != [] ==>
      (HasTrailingSlash(r) <==> HasTrailingSlash(Last(args)) || Segments(Last(args)) == [])
  {
    if args == [] then ""
    else
      var name := Last(args);
      var c := Clean(name);
      CleanTrailingSlash(name);
      CleanIsDestPath(name);
      if HasTrailingSlash(name) && !HasTrailingSlash(c) then
        CleanIdempotent(name);
        AppendSlash(c);
        c + "/"
      else c
  }

  // ---------------------------------------------------------------------
  // Permissions

  const PermAny := "*"
  const PermCreateSymlinks := "create_symlinks"

  /** The permissions configured on a directory, keyed by its components. */
  type Permissions = map<seq<string>, seq<string>>

  /** No configured directory between `k` and `dir` is nearer to `dir`. */
  predicate IsNearest(perms: Permissions, dir: seq<string>, k: seq<string>) {
    k in perms && k <= dir && forall k2 :: k2 in perms && k2 <= dir ==> |k2| <= |k|
  }

  /** The permissions that apply at `dir`: those of the nearest configured
      ancestor-or-self, or none at all. */
  function PermissionsFor(perms: Permissions, dir: seq<string>): (r: seq<string>)
    ensures (exists k :: k in perms && k <= dir) ==> exists k :: IsNearest(perms, dir, k) && r == perms[k]
    ensures (forall k :: k in perms ==> !(k <= dir)) ==> r == []
    decreases |dir|
  {
    if dir in perms then
      assert IsNearest(perms, dir, dir) by {
        forall k2 | k2 in perms && k2 <= dir ensures |k2| <= |dir| { }
      }
      perms[dir]
    else if dir == [] then []
    else
      var parent := dir[..|dir| - 1];
      ParentPrefix(perms, dir);
      PermissionsFor(perms, parent)
  }

  function HasPerm(perms: Permissions, perm: string, dir: seq<string>): (r: bool)
    ensures r <==> PermAny in PermissionsFor(perms, dir) || perm in PermissionsFor(perms, dir)
  {
    var granted := PermissionsFor(perms, dir);
    PermAny in granted || perm in granted
  }

  // ---------------------------------------------------------------------
  // External commands

  /** The parts of a user's configuration the exec dispatcher consults:
      permissions, the virtual paths of the virtual folders, and the
      directories that carry file-extension filters. */
  datatype User = User(permissions: Permissions, virtualFolders: seq<string>, filteredDirs: seq<string>)

  predicate Overlaps(a: seq<string>, b: seq<string>) {
    a <= b || b <= a
  }

  /** Whether an external command may work on `target`. rsync works on the
      real filesystem directly, so no virtual folder may overlap its target.
      A target that is itself a virtual folder is served by that folder
      alone. Otherwise no virtual folder may lie strictly inside the target
      and no extension filter may apply on, above or below it. */
  predicate AdmissibleAt(user: User, command: string, target: seq<string>) {
    var vf := user.virtualFolders;
    var fd := user.filteredDirs;
    !(command == "rsync" && exists i :: 0 <= i < |vf| && Overlaps(Segments(vf[i]), target)) &&
    ((exists i :: 0 <= i < |vf| && Segments(vf[i]) == target) ||
     ((forall i :: 0 <= i < |vf| ==> !(target < Segments(vf[i]))) &&
      (forall j :: 0 <= j < |fd| ==> !Overlaps(Segments(fd[j]), target))))
  }

  /** A command without arguments has no target and is always admissible. */
  predicate Admissible(user: User, command: string, args: seq<string>) {
    args == [] || AdmissibleAt(user, command, Segments(GetDestPath(args)))
  }

  /** One pass over the virtual folders: whether one overlaps the target,
      one is the target, and one lies strictly inside it. */
  method ScanFolders(vf: seq<string>, target: seq<string>) returns (overlapping: bool, exact: bool, inside: bool)
    ensures overlapping <==> exists k :: 0 <= k < |vf| && Overlaps(Segments(vf[k]), target)
    ensures exact <==> exists k :: 0 <= k < |vf| && Segments(vf[k]) == target
    ensures inside <==> exists k :: 0 <= k < |vf| && target < Segments(vf[k])
  {
    overlapping, exact, inside := false, false, false;
    var i := 0;
    while i < |vf|
      invariant 0 <= i <= |vf|
      invariant overlapping <==> exists k :: 0 <= k < i && Overlaps(Segments(vf[k]), target)
      invariant exact <==> exists k :: 0 <= k < i && Segments(vf[k]) == target
      invariant inside <==> exists k :: 0 <= k < i && target < Segments(vf[k])
    {
      var s := Segments(vf[i]);
      overlapping := overlapping || Overlaps(s, target);
      exact := exact || s == target;
      inside := inside || target < s;
      i := i + 1;
    }
  }

  /** One pass over the filtered directories: whether a filter applies on,
      above or below the target. */
  method ScanFilters(fd: seq<string>, target: seq<string>) returns (filtered: bool)
    ensures filtered <==> exists k :: 0 <= k < |fd| && Overlaps(Segments(fd[k]), target)
  {
    var j := 0;
    while j < |fd|
      invariant 0 <= j <= |fd|
      invariant forall k :: 0 <= k < j ==> !Overlaps(Segments(fd[k]), target)
    {
      if Overlaps(Segments(fd[j]), target) {
        return true;
      }
      j := j + 1;
    }
    return false;
  }

  /** The admissibility decision for a resolved target. */
  method CheckTarget(user: User, command: string, target: seq<string>) returns (err: Option<Error>)
    ensures err.None? <==> AdmissibleAt(user, command, target)
    ensures err.Some? ==> err == Some(UnsupportedConfig)
  {
    var overlapping, exact, inside := ScanFolders(user.virtualFolders, target);
    if command == "rsync" && overlapping {
      return Some(UnsupportedConfig);
    }
    if exact {
      return None;
    }
    if inside {
      return Some(UnsupportedConfig);
    }
    var filtered := ScanFilters(user.filteredDirs, target);
    return if filtered then Some(UnsupportedConfig) else None;
  }

  /** Scans the user's virtual folders and filters for the target of an
      external command; an inadmissible target is an unsupported
      configuration. */
  method CheckSystemCommand(user: User, command: string, args: seq<string>) returns (err: Option<Error>)
    ensures err.None? <==> Admissible(user, command, args)
    ensures err.Some? ==> err == Some(UnsupportedConfig)
  {
    if args == [] {
      return None;
    }
    err := CheckTarget(user, command, Segments(GetDestPath(args)));
  }

  /** The link flag rsync is started with: `--safe-links` when the user may
      create symbolic links, `--munge-links` otherwise; a flag the client
      already sent is not repeated. */
  function RsyncLinkFlag(canSymlink: bool, args: seq<string>): (r: seq<string>)
    ensures var flag := if canSymlink then "--safe-links" else "--munge-links";
            flag in r && (r == args || r == [flag] + args) && (flag in args ==> r == args)
    ensures forall a :: a in r && a != "--safe-links" && a != "--munge-links" ==> a in args
  {
    var flag := if canSymlink then "--safe-links" else "--munge-links";
    if flag in args then args else [flag] + args
  }

  /** The argument list of an external command: the last argument, the
      target, is replaced by `fsPath`, the real path it resolves to; rsync
      also gets its link flag, chosen by the permission at the target. */
  function SystemCommandArgs(user: User, command: string, args: seq<string>, fsPath: string): (r: seq<string>)
    ensures args == [] ==> r == [] || (command == "rsync" && |r| == 1)
    ensures args != [] ==> |r| > 0 && r[|r| - 1] == fsPath
    ensures command != "rsync" ==> |r| == |args| && (args != [] ==> r[..|r| - 1] == args[..|args| - 1])
    ensures command == "rsync" ==>
      var canSymlink := HasPerm(user.permissions, PermCreateSymlinks, Segments(GetDestPath(args)));
      (canSymlink ==> "--safe-links" in r) && (!canSymlink ==> "--munge-links" in r)
  {
    var base := if args == [] then [] else args[..|args| - 1] + [fsPath];
    if command != "rsync" then base
    else RsyncLinkFlag(HasPerm(user.permissions, PermCreateSymlinks, Segments(GetDestPath(args))), base)
  }

  /** Builds an external command: refused as an unsupported configuration
      when the target is not admissible, otherwise its argument list. */
  method GetSystemCommand(user: User, command: string, args: seq<string>, fsPath: string)
    returns (r: Result<seq<string>>)
    ensures r.Err? <==> !Admissible(user, command, args)
    ensures r.Err? ==> r.error == UnsupportedConfig
    ensures r.Ok? ==> r.value == SystemCommandArgs(user, command, args, fsPath)
  {
    var err := CheckSystemCommand(user, command, args);
    if err.Some? {
      return Err(err.value);
    }
    return Ok(SystemCommandArgs(user, command, args, fsPath));
  }

  // ---------------------------------------------------------------------
  // Lemmas

  lemma ParentPrefix(perms: Permissions, dir: seq<string>)
    requires dir != [] && dir !in perms
    ensures forall k :: k in perms && k <= dir ==> k <= dir[..|dir| - 1]
  {
    forall k | k in perms && k <= dir ensures k <= dir[..|dir| - 1] {
      assert k != dir;
      assert |k| < |dir|;
    }
  }

  /** A cleaned path ends in a slash exactly when it is the root. */
  lemma CleanTrailingSlash(p: string)
    ensures HasTrailingSlash(Clean(p)) <==> Segments(p) == []
  {
    RenderTrailingSlash(Segments(p));
  }

  lemma CleanIsDestPath(p: string)
    ensures IsDestPath(Clean(p))
  {
  }

  /** A slash appended to a cleaned path that is not the root leaves the
      components alone and adds an empty last one. */
  lemma AppendSlash(c: string)
    requires c == Clean(c) && !HasTrailingSlash(c)
    ensures IsDestPath(c + "/") && Segments(c + "/") == Segments(c)
    ensures HasTrailingSlash(c + "/")
  {
    TrailingSlashIgnored(c);
    assert c + "/" == c + "/" + "";
    SplitConcat(c, "");
    CleanTrailingSlash(c);
  }

  /** A destination path is its own destination path. */
  lemma GetDestPathIdempotent(args: seq<string>)
    requires args != []
    ensures GetDestPath([GetDestPath(args)]) == GetDestPath(args)
  {
    var r := GetDestPath(args);
    assert Last([r]) == r;
    assert Clean(r) == Clean(Last(args));
  }

  /** Adding the link flag twice adds it once. */
  lemma RsyncLinkFlagIdempotent(canSymlink: bool, args: seq<string>)
    ensures RsyncLinkFlag(canSymlink, RsyncLinkFlag(canSymlink, args)) == RsyncLinkFlag(canSymlink, args)
  {
  }

  // ---------------------------------------------------------------------
  // Cases from the engine's tests

  lemma DestPathOf(flag: string, arg: string, parts: seq<string>)
    requires |parts| >= 1 && (forall i :: 0 <= i < |parts| ==> '/' !in parts[i])
    requires arg == JoinSegs(parts)
    ensures var segs := Resolve(parts, []);
            GetDestPath([flag, arg]) == Render(segs) + (if HasTrailingSlash(arg) && segs != [] then "/" else "")
  {
    SegmentsOfParts(arg, parts);
    RenderTrailingSlash(Resolve(parts, []));
  }

  lemma DestPathDotDot()
    ensures GetDestPath([]) == ""
    ensures GetDestPath(["-t", "/tmp/../path"]) == "/path"
  {
    var parts := ["", "tmp", "..", "path"];
    DotDotJoins(parts);
    DotDotResolves(parts);
    assert Render(["path"]) == "/path";
    DestPathOf("-t", "/tmp/../path", parts);
  }

  lemma DotDotJoins(parts: seq<string>)
    requires parts == ["", "tmp", "..", "path"]
    ensures JoinSegs(parts) == "/tmp/../path"
  {
    assert JoinSegs(parts[3..]) == "path";
    assert JoinSegs(parts[2..]) == "../path";
    assert JoinSegs(parts[1..]) == "tmp/../path";
  }

  lemma DotDotResolves(parts: seq<string>)
    requires parts == ["", "tmp", "..", "path"]
    ensures Resolve(parts, []) == ["path"]
  {
    assert Resolve(parts[3..], ["tmp"][..0]) == ["path"];
    assert Resolve(parts[2..], ["tmp"]) == ["path"];
    assert Resolve(parts[1..], []) == ["path"];
  }

  lemma DestPathTrailingSlash()
    ensures GetDestPath(["-t", "/tmp/"]) == "/tmp/"
  {
    var parts := ["", "tmp", ""];
    TrailingSlashParts(parts);
    assert Render(["tmp"]) == "/tmp";
    DestPathOf("-t", "/tmp/", parts);
  }

  lemma TrailingSlashParts(parts: seq<string>)
    requires parts == ["", "tmp", ""]
    ensures JoinSegs(parts) == "/tmp/" && Resolve(parts, []) == ["tmp"]
  {
    assert JoinSegs(parts[2..]) == "";
    assert JoinSegs(parts[1..]) == "tmp/";
    assert Resolve(parts[2..], ["tmp"]) == ["tmp"];
    assert parts[1..][1..] == parts[2..] && [] + ["tmp"] == ["tmp"];
    assert Resolve(parts[1..], []) == ["tmp"];
  }

  lemma DestPathRelative()
    ensures GetDestPath(["-t", "tmp/"]) == "/tmp/"
  {
    var parts := ["tmp", ""];
    assert JoinSegs(parts[1..]) == "";
    assert JoinSegs(parts) == "tmp/";
    assert Resolve(parts[1..], ["tmp"]) == ["tmp"];
    assert Resolve(parts, []) == ["tmp"];
    assert Render(["tmp"]) == "/tmp";
    DestPathOf("-t", "tmp/", parts);
  }

  lemma ClampedDotDotText(parts: seq<string>)
    requires parts == ["", "tmp", "..", "..", "..", "path"]
    ensures JoinSegs(parts) == "/tmp/../../../path"
  {
    ClimbText(parts[2..]);
    assert JoinSegs(parts[1..]) == "tmp/../../../path";
  }

  lemma ClimbText(parts: seq<string>)
    requires parts == ["..", "..", "..", "path"]
    ensures JoinSegs(parts) == "../../../path"
  {
    assert JoinSegs(parts[3..]) == "path";
    assert JoinSegs(parts[2..]) == "../path";
    assert JoinSegs(parts[1..]) == "../../path";
  }

  lemma ClampedDotDotSegments(parts: seq<string>)
    requires parts == ["", "tmp", "..", "..", "..", "path"]
    ensures Resolve(parts, []) == ["path"]
  {
    assert Resolve(parts[5..], []) == ["path"];
    assert Resolve(parts[4..], []) == ["path"];
    assert Resolve(parts[3..], []) == ["path"];
    assert Resolve(parts[2..], ["tmp"]) == ["path"];
    assert Resolve(parts[1..], []) == ["path"];
  }

  lemma DestPathClampedDotDot()
    ensures GetDestPath(["-t", "/tmp/../../../path"]) == "/path"
  {
    var parts := ["", "tmp", "..", "..", "..", "path"];
    ClampedDotDotText(parts);
    ClampedDotDotSegments(parts);
    assert Render(["path"]) == "/path";
    DestPathOf("-t", "/tmp/../../../path", parts);
  }

  lemma DestPathParentOfRoot()
    ensures GetDestPath(["-t", ".."]) == "/"
  {
    var parts := [".."];
    assert JoinSegs(parts) == "..";
    assert Resolve(parts, []) == [];
    DestPathOf("-t", "..", parts);
  }

  lemma DestPathDot()
    ensures GetDestPath(["-t", "."]) == "/"
  {
    var parts := ["."];
    assert JoinSegs(parts) == ".";
    assert Resolve(parts, []) == [];
    DestPathOf("-t", ".", parts);
  }

  lemma DestPathDoubleSlash()
    ensures GetDestPath(["-t", "//"]) == "/"
  {
    var parts := ["", "", ""];
    assert JoinSegs(parts[2..]) == "";
    assert JoinSegs(parts[1..]) == "/";
    assert JoinSegs(parts) == "//";
    assert Resolve(parts[2..], []) == [];
    assert Resolve(parts[1..], []) == [];
    assert Resolve(parts, []) == [];
    DestPathOf("-t", "//", parts);
  }

  lemma DestPathParentTwice()
    ensures GetDestPath(["-t", "../.."]) == "/"
  {
    var parts := ["..", ".."];
    assert JoinSegs(parts[1..]) == "..";
    assert JoinSegs(parts) == "../..";
    assert Resolve(parts[1..], []) == [];
    assert Resolve(parts, []) == [];
    DestPathOf("-t", "../..", parts);
  }

  lemma DestPathRootedParent()
    ensures GetDestPath(["-t", "/.."]) == "/"
  {
    var parts := ["", ".."];
    assert JoinSegs(parts[1..]) == "..";
    assert JoinSegs(parts) == "/..";
    assert Resolve(parts[1..], []) == [];
    assert Resolve(parts, []) == [];
    DestPathOf("-t", "/..", parts);
  }

  lemma DestPathSpace()
    ensures GetDestPath(["-f", "/a space.txt"]) == "/a space.txt"
  {
    var parts := ["", "a space.txt"];
    assert JoinSegs(parts[1..]) == "a space.txt";
    assert JoinSegs(parts) == "/a space.txt";
    assert Resolve(parts[1..], []) == ["a space.txt"];
    assert Resolve(parts, []) == ["a space.txt"];
    assert Render(["a space.txt"]) == "/a space.txt";
    DestPathOf("-f", "/a space.txt", parts);
  }

  lemma AdmissibleByTarget(user: User, command: string, args: seq<string>, target: seq<string>)
    requires args != [] && Segments(Last(args)) == target
    ensures Admissible(user, command, args) == AdmissibleAt(user, command, target)
  {
  }

  /** With at most one virtual folder and one filtered directory the
      admissibility rule reads without quantifiers. */
  lemma AdmissibleAtOne(user: User, command: string, target: seq<string>)
    requires |user.virtualFolders| <= 1 && |user.filteredDirs| <= 1
    ensures var folder := |user.virtualFolders| == 1;
            var filter := |user.filteredDirs| == 1;
            AdmissibleAt(user, command, target) <==>
              !(command == "rsync" && folder && Overlaps(Segments(user.virtualFolders[0]), target)) &&
              ((folder && Segments(user.virtualFolders[0]) == target) ||
               (!(folder && target < Segments(user.virtualFolders[0])) &&
                !(filter && Overlaps(Segments(user.filteredDirs[0]), target))))
  {
  }

  /** The components of `/a/b`, for two names `a` and `b`. */
  lemma TwoNameSegments(p: string, a: string, b: string)
    requires IsName(a) && IsName(b) && p == "/" + a + "/" + b
    ensures Segments(p) == [a, b]
  {
    assert [a, b][1..] == [b];
    assert JoinSegs([a, b]) == a + "/" + b;
    assert "/" + (a + "/" + b) == "/" + a + "/" + b;
    RenderSegments([a, b]);
  }

  /** The components of `/a`, for a name `a`. */
  lemma OneNameSegments(p: string, a: string)
    requires IsName(a) && p == "/" + a
    ensures Segments(p) == [a]
  {
    assert Render([a]) == "/" + a;
    RenderSegments([a]);
  }

  lemma RootSegments()
    ensures Segments("/") == []
  {
    RenderSegments([]);
  }

  // The paths the examples below use. Each is one instance of the two
  // lemmas above; keeping the string reasoning in its own lemma keeps it
  // out of the examples' proofs.

  lemma VdirSegments()
    ensures Segments("/vdir") == ["vdir"]
  {
    OneNameSegments("/vdir", "vdir");
  }

  lemma Vdir1Segments()
    ensures Segments("/vdir1") == ["vdir1"]
  {
    OneNameSegments("/vdir1", "vdir1");
  }

  lemma SubdirSegments()
    ensures Segments("/subdir") == ["subdir"]
  {
    OneNameSegments("/subdir", "subdir");
  }

  lemma VdirSubdirSegments()
    ensures Segments("/vdir/subdir") == ["vdir", "subdir"]
  {
    TwoNameSegments("/vdir/subdir", "vdir", "subdir");
  }

  lemma AdirSubdirSegments()
    ensures Segments("/adir/subdir") == ["adir", "subdir"]
  {
    TwoNameSegments("/adir/subdir", "adir", "subdir");
  }

  lemma SubdirDirSegments()
    ensures Segments("/subdir/dir") == ["subdir", "dir"]
  {
    TwoNameSegments("/subdir/dir", "subdir", "dir");
  }

  /** git may work on a virtual folder itself. */
  lemma GitOnVirtualFolder()
    ensures Admissible(User(map[[] := [PermAny]], ["/vdir"], []), "git-receive-pack", ["/vdir"])
  {
    var user := User(map[[] := [PermAny]], ["/vdir"], []);
    VdirSegments();
    AdmissibleByTarget(user, "git-receive-pack", ["/vdir"], ["vdir"]);
    AdmissibleAtOne(user, "git-receive-pack", ["vdir"]);
  }

  /** The root holds the virtual folder `/vdir`: git may not work on it. */
  lemma GitOnRootWithVirtualFolder()
    ensures !Admissible(User(map[[] := [PermAny]], ["/vdir"], []), "git-receive-pack", ["/"])
  {
    var user := User(map[[] := [PermAny]], ["/vdir"], []);
    VdirSegments();
    RootSegments();
    AdmissibleByTarget(user, "git-receive-pack", ["/"], []);
    AdmissibleAtOne(user, "git-receive-pack", []);
  }

  /** `/vdir1` only shares a textual prefix with `/vdir`. */
  lemma GitOnTextualSibling()
    ensures Admissible(User(map[[] := [PermAny]], ["/vdir"], []), "git-receive-pack", ["/vdir1"])
  {
    var user := User(map[[] := [PermAny]], ["/vdir"], []);
    VdirSegments();
    Vdir1Segments();
    AdmissibleByTarget(user, "git-receive-pack", ["/vdir1"], ["vdir1"]);
    AdmissibleAtOne(user, "git-receive-pack", ["vdir1"]);
    assert "vdir" != "vdir1";
  }

  lemma GitInsideVirtualFolder()
    ensures Admissible(User(map[[] := [PermAny]], ["/vdir"], []), "git-receive-pack", ["/vdir/subdir"])
  {
    var user := User(map[[] := [PermAny]], ["/vdir"], []);
    VdirSegments();
    VdirSubdirSegments();
    AdmissibleByTarget(user, "git-receive-pack", ["/vdir/subdir"], ["vdir", "subdir"]);
    AdmissibleAtOne(user, "git-receive-pack", ["vdir", "subdir"]);
  }

  lemma GitOutsideVirtualFolder()
    ensures Admissible(User(map[[] := [PermAny]], ["/vdir"], []), "git-receive-pack", ["/adir/subdir"])
  {
    var user := User(map[[] := [PermAny]], ["/vdir"], []);
    VdirSegments();
    AdirSubdirSegments();
    AdmissibleByTarget(user, "git-receive-pack", ["/adir/subdir"], ["adir", "subdir"]);
    AdmissibleAtOne(user, "git-receive-pack", ["adir", "subdir"]);
    assert "adir" != "vdir";
  }

  /** An extension filter on `/subdir` lies below the root: rsync may not
      work on the root. */
  lemma RsyncOnRootWithFilter()
    ensures !Admissible(User(map[], [], ["/subdir"]), "rsync", ["--server", "-vlogDtprze.iLsfxC", ".", "/"])
  {
    var user := User(map[], [], ["/subdir"]);
    SubdirSegments();
    RootSegments();
    AdmissibleByTarget(user, "rsync", ["--server", "-vlogDtprze.iLsfxC", ".", "/"], []);
    AdmissibleAtOne(user, "rsync", []);
  }

  lemma GitOnFilteredDir()
    ensures !Admissible(User(map[], [], ["/subdir"]), "git-receive-pack", ["/subdir"])
  {
    var user := User(map[], [], ["/subdir"]);
    SubdirSegments();
    AdmissibleByTarget(user, "git-receive-pack", ["/subdir"], ["subdir"]);
    AdmissibleAtOne(user, "git-receive-pack", ["subdir"]);
  }

  lemma GitBelowFilteredDir()
    ensures !Admissible(User(map[], [], ["/subdir"]), "git-receive-pack", ["/subdir/dir"])
  {
    var user := User(map[], [], ["/subdir"]);
    SubdirSegments();
    SubdirDirSegments();
    AdmissibleByTarget(user, "git-receive-pack", ["/subdir/dir"], ["subdir", "dir"]);
    AdmissibleAtOne(user, "git-receive-pack", ["subdir", "dir"]);
    assert ["subdir"] <= ["subdir", "dir"];
  }

  lemma GitBesideFilteredDir()
    ensures Admissible(User(map[], [], ["/subdir"]), "git-receive-pack", ["/adir/subdir"])
  {
    var user := User(map[], [], ["/subdir"]);
    SubdirSegments();
    AdirSubdirSegments();
    AdmissibleByTarget(user, "git-receive-pack", ["/adir/subdir"], ["adir", "subdir"]);
    AdmissibleAtOne(user, "git-receive-pack", ["adir", "subdir"]);
    assert "adir" != "subdir";
  }

  /** A user who may do anything gets `--safe-links`. */
  lemma RsyncSafeLinks(fsPath: string)
    ensures var user := User(map[[] := [PermAny]], [], []);
            var args := ["--server", "-vlogDtprze.iLsfxC", ".", "/"];
            Admissible(user, "rsync", args) && "--safe-links" in SystemCommandArgs(user, "rsync", args, fsPath)
  {
    var user := User(map[[] := [PermAny]], [], []);
    var args := ["--server", "-vlogDtprze.iLsfxC", ".", "/"];
    RootSegments();
    AdmissibleByTarget(user, "rsync", args, []);
    AdmissibleAtOne(user, "rsync", []);
    assert HasPerm(user.permissions, PermCreateSymlinks, []);
  }

  /** A user without the symlink permission gets `--munge-links`; once the
      same user has a virtual folder, rsync is refused. */
  lemma RsyncMungeLinks(fsPath: string)
    ensures var perms := map[[] := ["download", "upload", "create_dirs", "list", "overwrite", "delete", "rename"]];
            var user := User(perms, [], []);
            var args := ["--server", "-vlogDtprze.iLsfxC", ".", "/"];
            Admissible(user, "rsync", args) && "--munge-links" in SystemCommandArgs(user, "rsync", args, fsPath) &&
            !Admissible(user.(virtualFolders := ["/vdir"]), "rsync", args)
  {
    var perms := map[[] := ["download", "upload", "create_dirs", "list", "overwrite", "delete", "rename"]];
    var user := User(perms, [], []);
    var args := ["--server", "-vlogDtprze.iLsfxC", ".", "/"];
    RsyncAdmitted(user, args, fsPath);
    RsyncRefusedOverFolder(user, args);
  }

  lemma RsyncAdmitted(user: User, args: seq<string>, fsPath: string)
    requires user == User(map[[] := ["download", "upload", "create_dirs", "list", "overwrite", "delete", "rename"]], [], [])
    requires args == ["--server", "-vlogDtprze.iLsfxC", ".", "/"]
    ensures Admissible(user, "rsync", args) && "--munge-links" in SystemCommandArgs(user, "rsync", args, fsPath)
  {
    RootSegments();
    AdmissibleByTarget(user, "rsync", args, []);
    AdmissibleAtOne(user, "rsync", []);
    assert !HasPerm(user.permissions, PermCreateSymlinks, []);
  }

  lemma RsyncRefusedOverFolder(user: User, args: seq<string>)
    requires user == User(map[[] := ["download", "upload", "create_dirs", "list", "overwrite", "delete", "rename"]], [], [])
    requires args == ["--server", "-vlogDtprze.iLsfxC", ".", "/"]
    ensures !Admissible(user.(virtualFolders := ["/vdir"]), "rsync", args)
  {
    RootSegments();
    VdirSegments();
    var withFolder := user.(virtualFolders := ["/vdir"]);
    AdmissibleByTarget(withFolder, "rsync", args, []);
    AdmissibleAtOne(withFolder, "rsync", []);
  }
}
