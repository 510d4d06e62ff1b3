/** Virtual paths: the `/`-rooted, slash-separated names a user sees. A path
    is cleaned the way Go's `path.Clean` cleans a rooted path: empty and `.`
    components vanish, `..` removes the component before it and cannot climb
    above the root. Ancestry between paths is decided on whole components. */
module VirtualPath {

  /** The components of `s` between slashes, as `strings.Split(s, "/")`. */
  function Split(s: string): (r: seq<string>)
    ensures |r| >= 1
    ensures forall i :: 0 <= i < |r| ==> '/' !in r[i]
    decreases |s|
  {
    if s == [] then [""]
    else
      var t := Split(s[1..]);
      if s[0] == '/' then [""] + t
      else [[s[0]] + t[0]] + t[1..]
  }

  /** The components glued back with slashes, as `strings.Join(segs, "/")`. */
  function JoinSegs(segs: seq<string>): string
    requires |segs| >= 1
  {
    if |segs| == 1 then segs[0] else segs[0] + "/" + JoinSegs(segs[1..])
  }

  /** A component that survives cleaning. */
  predicate IsName(seg: string) {
    seg != "" && seg != "." && seg != ".." && '/' !in seg
  }

  predicate IsCanonical(segs: seq<string>) {
    forall i :: 0 <= i < |segs| ==> IsName(segs[i])
  }

  /** Walks the components against a stack of directory names. */
  function Resolve(segs: seq<string>, stack: seq<string>): (r: seq<string>)
    requires IsCanonical(stack)
    ensures IsCanonical(r)
    decreases |segs|
  {
    if segs == [] then stack
    else if segs[0] == "" || segs[0] == "." then Resolve(segs[1..], stack)
    else if segs[0] == ".." then Resolve(segs[1..], if stack == [] then [] else stack[..|stack| - 1])
    else if '/' in segs[0] then Resolve(segs[1..], stack)
    else Resolve(segs[1..], stack + [segs[0]])
  }

  /** The directory names a path denotes below the root. */
  function Segments(p: string): seq<string> {
    Resolve(Split(p), [])
  }

  /** The canonical text of a list of directory names. */
  function Render(segs: seq<string>): string {
    if segs == [] then "/" else "/" + JoinSegs(segs)
  }

  /** `path.Clean` applied to the path rooted at `/`. */
  function Clean(p: string): (r: string)
    ensures |r| > 0 && r[0] == '/'
    ensures IsCanonical(Segments(r)) && Segments(r) == Segments(p)
    ensures Split(r) == if Segments(p) == [] then ["", ""] else [""] + Segments(p)
  {
    var segs := Segments(p);
    RenderSegments(segs);
    Render(segs)
  }

  /** `path.Join(dir, name)` for a rooted `dir`. */
  function Join(dir: string, name: string): (r: string)
    ensures Segments(r) == Resolve(Split(name), Segments(dir))
  {
    SplitConcat(dir, name);
    ResolveConcat(Split(dir), Split(name), []);
    Clean(dir + "/" + name)
  }

  predicate HasTrailingSlash(p: string) {
    |p| > 0 && p[|p| - 1] == '/'
  }

  /** `a` is `b` or one of its ancestors, component by component. */
  predicate IsAncestorOrSelf(a: string, b: string) {
    Segments(a) <= Segments(b)
  }

  /** `a` is a proper ancestor of `b`, component by component. */
  predicate IsStrictAncestor(a: string, b: string) {
    Segments(a) < Segments(b)
  }

  predicate StartsWith(s: string, prefix: string) {
    |prefix| <= |s| && s[..|prefix|] == prefix
  }

  // ---------------------------------------------------------------------
  // Lemmas

  lemma {:induction false} SplitPrefix(a: string, rest: string)
    requires '/' !in a
    ensures Split(a + rest) == [a + Split(rest)[0]] + Split(rest)[1..]
    decreases |a|
  {
    if a == [] {
      assert a + rest == rest;
      assert a + Split(rest)[0] == Split(rest)[0];
      assert Split(rest) == [Split(rest)[0]] + Split(rest)[1..];
    } else {
      assert (a + rest)[1..] == a[1..] + rest;
      SplitPrefix(a[1..], rest);
      assert [a[0]] + (a[1..] + Split(rest)[0]) == a + Split(rest)[0];
    }
  }

  lemma {:induction false} SplitJoin(segs: seq<string>)
    requires |segs| >= 1 && forall i :: 0 <= i < |segs| ==> '/' !in segs[i]
    ensures Split(JoinSegs(segs)) == segs
    decreases |segs|
  {
    if |segs| == 1 {
      SplitPrefix(segs[0], "");
      assert segs[0] + "" == segs[0];
    } else {
      var tail := "/" + JoinSegs(segs[1..]);
      assert JoinSegs(segs) == segs[0] + tail;
      SplitPrefix(segs[0], tail);
      assert tail[1..] == JoinSegs(segs[1..]);
      SplitJoin(segs[1..]);
      assert Split(tail) == [""] + segs[1..];
      assert segs[0] + "" == segs[0];
      assert [segs[0]] + segs[1..] == segs;
    }
  }

  /** Splitting at a slash splits the two sides independently. */
  lemma {:induction false} SplitConcat(p: string, q: string)
    ensures Split(p + "/" + q) == Split(p) + Split(q)
    decreases |p|
  {
    if p == [] {
      assert p + "/" + q == "/" + q;
      assert ("/" + q)[1..] == q;
    } else {
      assert (p + "/" + q)[1..] == p[1..] + "/" + q;
      SplitConcat(p[1..], q);
    }
  }

  lemma {:induction false} ResolveConcat(a: seq<string>, b: seq<string>, stack: seq<string>)
    requires IsCanonical(stack)
    ensures Resolve(a + b, stack) == Resolve(b, Resolve(a, stack))
    decreases |a|
  {
    if a == [] {
      assert a + b == b;
    } else {
      assert (a + b)[1..] == a[1..] + b;
      var next := if a[0] == "" || a[0] == "." || '/' in a[0] then stack
        else if a[0] == ".." then (if stack == [] then [] else stack[..|stack| - 1])
        else stack + [a[0]];
      ResolveConcat(a[1..], b, next);
    }
  }

  /** Canonical names are pushed unchanged. */
  lemma {:induction false} ResolveCanonical(segs: seq<string>, stack: seq<string>)
    requires IsCanonical(stack) && IsCanonical(segs)
    ensures Resolve(segs, stack) == stack + segs
    decreases |segs|
  {
    if segs != [] {
      ResolveCanonical(segs[1..], stack + [segs[0]]);
      assert stack + [segs[0]] + segs[1..] == stack + segs;
    }
  }

  /** The text of canonical names splits back into them. */
  lemma RenderSegments(segs: seq<string>)
    requires IsCanonical(segs)
    ensures Segments(Render(segs)) == segs
    ensures Split(Render(segs)) == if segs == [] then ["", ""] else [""] + segs
  {
    if segs == [] {
      assert Split("/") == ["", ""] by {
        assert "/"[1..] == [];
      }
    } else {
      SplitJoin(segs);
      assert ("/" + JoinSegs(segs))[1..] == JoinSegs(segs);
      ResolveCanonical(segs, []);
    }
  }

  /** Joined components end with the last component. */
  lemma {:induction false} JoinSegsEnd(segs: seq<string>)
    requires |segs| >= 1
    ensures var last := segs[|segs| - 1];
            |last| <= |JoinSegs(segs)| && JoinSegs(segs)[|JoinSegs(segs)| - |last|..] == last
    decreases |segs|
  {
    if |segs| > 1 {
      JoinSegsEnd(segs[1..]);
      var j := JoinSegs(segs[1..]);
      assert JoinSegs(segs) == (segs[0] + "/") + j;
    }
  }

  /** Only the root is rendered with a slash at the end. */
  lemma RenderTrailingSlash(segs: seq<string>)
    requires IsCanonical(segs)
    ensures HasTrailingSlash(Render(segs)) <==> segs == []
  {
    if segs != [] {
      JoinSegsEnd(segs);
      var last := segs[|segs| - 1];
      var c := Render(segs);
      assert IsName(last);
      assert c[|c| - 1] == last[|last| - 1];
    }
  }

  /** Cleaning is idempotent. */
  lemma CleanIdempotent(p: string)
    ensures Clean(Clean(p)) == Clean(p)
  {
  }

  /** A slash at the end of a path does not change what it names. */
  lemma TrailingSlashIgnored(p: string)
    ensures Segments(p + "/") == Segments(p)
  {
    SplitConcat(p, "");
    assert p + "/" + "" == p + "/";
    ResolveConcat(Split(p), [""], []);
  }

  /** Joining `..` to a directory yields its parent; the root is its own parent. */
  lemma JoinParent(dir: string)
    ensures var s := Segments(dir);
            Segments(Join(dir, "..")) == if s == [] then [] else s[..|s| - 1]
  {
    SplitOfDotDot();
    var s := Segments(dir);
    assert Resolve([".."], s) == Resolve([], if s == [] then [] else s[..|s| - 1]);
  }

  lemma SplitOfDotDot()
    ensures Split("..") == [".."]
  {
    var e: string := [];
    assert Split(e) == [e];
    var dot: string := ['.'];
    assert dot[1..] == e && dot[0] == '.';
    assert [dot[0]] + e == dot;
    assert Split(dot) == [dot];
    var dd: string := ['.', '.'];
    assert dd[1..] == dot && dd[0] == '.';
    assert [dd[0]] + dot == dd;
    assert Split(dd) == [dd];
  }

  lemma SplitOfName(name: string)
    requires '/' !in name
    ensures Split(name) == [name]
  {
    SplitPrefix(name, "");
    assert name + "" == name;
    assert Split("") == [""];
  }

  /** Joining a plain name to a directory descends into it. */
  lemma JoinName(dir: string, name: string)
    requires IsName(name)
    ensures Segments(Join(dir, name)) == Segments(dir) + [name]
  {
    SplitOfName(name);
    assert Resolve([name], Segments(dir)) == Resolve([], Segments(dir) + [name]);
  }

  /** The component-wise ancestry of two canonical paths, the root aside,
      agrees with the textual test "`b` begins with `a` followed by a slash":
      so `/vdir` is an ancestor of `/vdir/sub` but not of `/vdir1`. */
  lemma StrictAncestorAsPrefix(sa: seq<string>, sb: seq<string>)
    requires IsCanonical(sa) && IsCanonical(sb) && sa != []
    ensures sa < sb <==> StartsWith(Render(sb), Render(sa) + "/")
  {
    if sa < sb {
      StrictAncestorGivesPrefix(sa, sb);
    }
    if StartsWith(Render(sb), Render(sa) + "/") {
      PrefixGivesStrictAncestor(sa, sb);
    }
  }

  lemma StrictAncestorGivesPrefix(sa: seq<string>, sb: seq<string>)
    requires IsCanonical(sa) && IsCanonical(sb) && sa != [] && sa < sb
    ensures StartsWith(Render(sb), Render(sa) + "/")
  {
    ExtensionRendersBelow(sa, sb);
  }

  /** Rendering does not depend on the components being canonical. */
  lemma ExtensionRendersBelow(sa: seq<string>, sb: seq<string>)
    requires sa != [] && sa < sb
    ensures StartsWith(Render(sb), Render(sa) + "/")
  {
    var a, b := Render(sa), Render(sb);
    var rest := sb[|sa|..];
    assert sb == sa + rest;
    JoinAppend(sa, rest);
    assert b == (a + "/") + JoinSegs(rest);
    StartsWithConcat(a + "/", JoinSegs(rest));
  }

  lemma StartsWithConcat(p: string, q: string)
    ensures StartsWith(p + q, p)
  {
    assert (p + q)[..|p|] == p;
  }

  lemma PrefixGivesStrictAncestor(sa: seq<string>, sb: seq<string>)
    requires IsCanonical(sa) && IsCanonical(sb) && sa != []
    requires StartsWith(Render(sb), Render(sa) + "/")
    ensures sa < sb
  {
    RenderSegments(sa);
    RenderSegments(sb);
    var t := Render(sb)[|Render(sa) + "/"|..];
    PrefixSplits(Render(sa), Render(sb));
    DropFirst(sb, sa, Split(t));
  }

  /** A path that starts with `a` and a slash splits into `a`'s components
      followed by those of the rest. */
  lemma PrefixSplits(a: string, b: string)
    requires StartsWith(b, a + "/")
    ensures Split(b) == Split(a) + Split(b[|a + "/"|..])
  {
    var t := b[|a + "/"|..];
    assert b == a + "/" + t;
    SplitConcat(a, t);
  }

  lemma DropFirst(x: seq<string>, y: seq<string>, z: seq<string>)
    requires [""] + x == [""] + y + z
    ensures x == y + z
  {
    assert x == ([""] + x)[1..];
    assert y + z == ([""] + y + z)[1..];
  }

  lemma {:induction false} JoinAppend(x: seq<string>, y: seq<string>)
    requires |x| >= 1 && |y| >= 1
    ensures JoinSegs(x + y) == JoinSegs(x) + "/" + JoinSegs(y)
    decreases |x|
  {
    if |x| == 1 {
      assert (x + y)[1..] == y;
    } else {
      assert (x + y)[1..] == x[1..] + y;
      JoinAppend(x[1..], y);
    }
  }

  /** The components of a path written out component by component. */
  lemma SegmentsOfParts(p: string, parts: seq<string>)
    requires |parts| >= 1 && (forall i :: 0 <= i < |parts| ==> '/' !in parts[i])
    requires p == JoinSegs(parts)
    ensures Segments(p) == Resolve(parts, [])
  {
    SplitJoin(parts);
  }
}
