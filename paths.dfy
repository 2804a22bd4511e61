/** POSIX path handling as the converter uses it: `pathlib.Path(p).stem`,
    `str(pathlib.Path(p).parent)` and `os.path.join(dir, name)`.
    A path is split at '/'; empty components and "." are dropped, as pathlib
    does; the root is "/", or "//" when the path starts with exactly two
    slashes. */
module Paths {
  import opened Text

  const Sep: char := '/'

  /** A component pathlib keeps: non-empty, not ".", free of '/'. */
  predicate IsPart(s: string) {
    s != "" && s != "." && Sep !in s
  }

  /** pathlib's root of a POSIX path. */
  function Root(p: string): (r: string)
    ensures r == "" || r == "/" || r == "//"
    ensures r != "" <==> |p| >= 1 && p[0] == Sep
    ensures r == "//" <==> |p| >= 2 && p[0] == Sep && p[1] == Sep && (|p| == 2 || p[2] != Sep)
  {
    if |p| >= 2 && p[0] == Sep && p[1] == Sep && (|p| == 2 || p[2] != Sep) then "//"
    else if |p| >= 1 && p[0] == Sep then "/"
    else ""
  }

  /** Drops the empty and "." pieces of a split path, keeping the order. */
  function KeepParts(xs: seq<string>): (r: seq<string>)
    ensures |r| <= |xs|
    ensures forall i :: 0 <= i < |r| ==> r[i] != "" && r[i] != "." && r[i] in xs
  {
    if xs == [] then []
    else if xs[0] == "" || xs[0] == "." then KeepParts(xs[1..])
    else [xs[0]] + KeepParts(xs[1..])
  }

  lemma {:induction false} SplitPieces(sep: char, s: string)
    ensures forall i :: 0 <= i < |SplitOn(sep, s)| ==> sep !in SplitOn(sep, s)[i]
  {
    if s != [] {
      SplitPieces(sep, s[1..]);
    }
  }

  /** pathlib's parsed components of `p` (its `parts` without the root). */
  function Parts(p: string): (r: seq<string>)
    ensures forall i :: 0 <= i < |r| ==> IsPart(r[i])
  {
    SplitPieces(Sep, p);
    KeepParts(SplitOn(Sep, p))
  }

  /** `Path(p).name`: the last component, or "" when there is none. */
  function Name(p: string): (r: string)
    ensures r == "" <==> Parts(p) == []
    ensures r != "" ==> IsPart(r)
  {
    var ps := Parts(p);
    if ps == [] then "" else ps[|ps| - 1]
  }

  /** Python's `s.rfind(c)`: the last position of `c`, or -1. */
  function LastIndexOf(c: char, s: string): (r: int)
    ensures -1 <= r < |s|
    ensures r >= 0 ==> s[r] == c
    ensures forall j :: r < j < |s| ==> s[j] != c
  {
    if s == [] then -1
    else if s[|s| - 1] == c then |s| - 1
    else LastIndexOf(c, s[..|s| - 1])
  }

  /** `Path(p).stem`: the name without its final suffix. A suffix starts at
      the last '.', which must be neither the first nor the last character
      of the name. */
  function Stem(p: string): (r: string)
    ensures |r| <= |Name(p)| && r == Name(p)[..|r|]
    ensures r == "" <==> Name(p) == ""
    ensures r != Name(p) ==> Name(p)[|r|] == '.' && '.' !in Name(p)[|r| + 1..]
    ensures r != Name(p) ==> |r| + 1 < |Name(p)|
  {
    var n := Name(p);
    var i := LastIndexOf('.', n);
    if 0 < i < |n| - 1 then n[..i] else n
  }

  /** `str(Path(...))` of a root and components: "." when both are empty. */
  function Format(root: string, parts: seq<string>): (r: string)
    ensures r != ""
    ensures root == "" && parts == [] ==> r == "."
    ensures |r| >= |root| && r[..|root|] == root
  {
    var s := root + JoinWith(Sep, parts);
    if s == "" then "." else s
  }

  /** `str(Path(p))`: the normalised spelling of `p`; it parses to the same
      root and components as `p`. */
  function Normalize(p: string): (r: string)
    ensures r != ""
    ensures Root(r) == Root(p) && Parts(r) == Parts(p)
  {
    PartsOfFormat(Root(p), Parts(p));
    RootOfFormat(Root(p), Parts(p));
    Format(Root(p), Parts(p))
  }

  /** `str(Path(p).parent)`: the path without its last component; a path
      with no components is its own parent. */
  function Parent(p: string): (r: string)
    ensures r != ""
  {
    var ps := Parts(p);
    Format(Root(p), if ps == [] then [] else ps[..|ps| - 1])
  }

  /** `os.path.join(a, b)` on POSIX: an absolute `b` replaces `a`; otherwise
      a '/' is inserted unless `a` is empty or already ends with one. */
  function JoinPath(a: string, b: string): (r: string)
    ensures |b| >= 1 && b[0] == Sep ==> r == b
    ensures !(|b| >= 1 && b[0] == Sep) ==> |r| >= |a| + |b| && r[..|a|] == a && r[|r| - |b|..] == b
  {
    if |b| >= 1 && b[0] == Sep then b
    else if a == "" || a[|a| - 1] == Sep then a + b
    else a + [Sep] + b
  }

  // ---------------------------------------------------------------------
  // Properties of the component split

  lemma {:induction false} KeepAppend(xs: seq<string>, ys: seq<string>)
    ensures KeepParts(xs + ys) == KeepParts(xs) + KeepParts(ys)
  {
    if xs == [] {
      assert xs + ys == ys;
    } else {
      var zs := xs + ys;
      assert zs[0] == xs[0] && zs[1..] == xs[1..] + ys;
      KeepAppend(xs[1..], ys);
      if xs[0] == "" || xs[0] == "." {
        assert KeepParts(zs) == KeepParts(xs[1..] + ys);
      } else {
        assert KeepParts(zs) == [xs[0]] + KeepParts(xs[1..] + ys);
        assert KeepParts(xs) == [xs[0]] + KeepParts(xs[1..]);
      }
    }
  }

  /** The components of `a/b` are those of `a` followed by those of `b`. */
  lemma PartsAppend(a: string, b: string)
    ensures Parts(a + [Sep] + b) == Parts(a) + Parts(b)
  {
    SplitAppend(Sep, a, b);
    KeepAppend(SplitOn(Sep, a), SplitOn(Sep, b));
  }

  lemma PartsOfPart(n: string)
    requires IsPart(n)
    ensures Parts(n) == [n]
  {
    SplitWithout(Sep, n);
  }

  /** Joining a plain file name onto a directory appends one component. */
  lemma PartsOfJoin(a: string, n: string)
    requires IsPart(n)
    ensures Parts(JoinPath(a, n)) == Parts(a) + [n]
    ensures Name(JoinPath(a, n)) == n
  {
    PartsOfPart(n);
    if a == "" {
      assert JoinPath(a, n) == n;
    } else if a[|a| - 1] == Sep {
      PartsAfterSlash(a, n);
    } else {
      PartsAppend(a, n);
    }
  }

  /** A directory spelled with a trailing '/' takes the name directly. */
  lemma PartsAfterSlash(a: string, n: string)
    requires IsPart(n) && a != "" && a[|a| - 1] == Sep
    ensures Parts(a + n) == Parts(a) + [n]
  {
    PartsOfPart(n);
    var a' := a[..|a| - 1];
    assert a == a' + [Sep] + "";
    PartsAppend(a', "");
    assert a + n == a' + [Sep] + n;
    PartsAppend(a', n);
  }

  lemma RootOfJoin(a: string, n: string)
    requires a != "" && IsPart(n)
    ensures Root(JoinPath(a, n)) == Root(a)
  {
    var j := JoinPath(a, n);
    assert n[0] != Sep by { assert n[0] in n; }
    assert j[..|a|] == a;
    if |a| >= 3 {
      assert j[0] == a[0] && j[1] == a[1] && j[2] == a[2];
    } else if |a| == 2 {
      assert j[0] == a[0] && j[1] == a[1];
      assert |j| > 2;
      assert a[1] == Sep ==> j[2] == n[0];
    } else {
      assert j[0] == a[0];
      assert |j| > 1;
      assert a[0] == Sep ==> j[1] == n[0];
    }
  }

  /** `Path(os.path.join(d, n)).parent == Path(d)` for a plain file name. */
  lemma ParentOfJoin(a: string, n: string)
    requires IsPart(n)
    ensures Parent(JoinPath(a, n)) == Normalize(a)
  {
    PartsOfJoin(a, n);
    var ps := Parts(JoinPath(a, n));
    assert ps[..|ps| - 1] == Parts(a);
    if a == "" {
      assert JoinPath(a, n) == n;
      assert Root(n) == "" by { assert n[0] in n; }
    } else {
      RootOfJoin(a, n);
    }
  }

  lemma {:induction false} JoinFirst(xs: seq<string>)
    requires |xs| >= 1 && xs[0] != ""
    ensures |JoinWith(Sep, xs)| >= 1 && JoinWith(Sep, xs)[0] == xs[0][0]
  {
  }

  lemma {:induction false} KeepAll(xs: seq<string>)
    requires forall i :: 0 <= i < |xs| ==> IsPart(xs[i])
    ensures KeepParts(xs) == xs
  {
    if xs != [] {
      assert IsPart(xs[0]);
      KeepAll(xs[1..]);
      assert [xs[0]] + xs[1..] == xs;
    }
  }

  lemma PartsOfJoined(ps: seq<string>)
    requires forall i :: 0 <= i < |ps| ==> IsPart(ps[i])
    ensures Parts(JoinWith(Sep, ps)) == ps
  {
    if ps == [] {
      assert JoinWith(Sep, ps) == "";
    } else {
      SplitJoin(Sep, ps);
      KeepAll(ps);
    }
  }

  /** A formatted path reads back as the same components ... */
  lemma PartsOfFormat(root: string, ps: seq<string>)
    requires root == "" || root == "/" || root == "//"
    requires forall i :: 0 <= i < |ps| ==> IsPart(ps[i])
    ensures Parts(Format(root, ps)) == ps
  {
    PartsOfJoined(ps);
    if root == "" {
      PartsOfRelative(ps);
    } else {
      PartsOfRooted(root, ps);
    }
  }

  /** A rooted path formats as its root followed by its joined parts. */
  lemma PartsOfRooted(root: string, ps: seq<string>)
    requires root == "/" || root == "//"
    requires Parts(JoinWith(Sep, ps)) == ps
    ensures Parts(Format(root, ps)) == ps
  {
    var j := JoinWith(Sep, ps);
    assert Format(root, ps) == root + j;
    PartsLeadingSlash(j);
    if root == "//" {
      assert root + j == [Sep] + ([Sep] + j);
      PartsLeadingSlash([Sep] + j);
    } else {
      assert root + j == [Sep] + j;
    }
  }

  /** A relative path formats as its joined parts, or "." with none. */
  lemma PartsOfRelative(ps: seq<string>)
    requires Parts(JoinWith(Sep, ps)) == ps
    ensures Parts(Format("", ps)) == ps
  {
    if ps == [] {
      assert Format("", ps) == ".";
      SplitWithout(Sep, ".");
      assert KeepParts(["."]) == [];
    } else {
      JoinFirst(ps);
      assert Format("", ps) == JoinWith(Sep, ps);
    }
  }

  /** A leading '/' adds no component. */
  lemma PartsLeadingSlash(t: string)
    ensures Parts([Sep] + t) == Parts(t)
  {
    assert [Sep] + t == "" + [Sep] + t;
    PartsAppend("", t);
    assert SplitOn(Sep, "") == [""];
    assert KeepParts([""]) == [];
  }

  /** ... and as the same root. */
  lemma RootOfFormat(root: string, ps: seq<string>)
    requires root == "" || root == "/" || root == "//"
    requires forall i :: 0 <= i < |ps| ==> IsPart(ps[i])
    ensures Root(Format(root, ps)) == root
  {
    if ps != [] {
      assert ps[0][0] != Sep by { assert ps[0][0] in ps[0]; }
      JoinFirst(ps);
    }
  }

  /** A parent is already in normal form. */
  lemma ParentIsNormal(p: string)
    ensures Normalize(Parent(p)) == Parent(p)
  {
    var ps := Parts(p);
    var kept := if ps == [] then [] else ps[..|ps| - 1];
    PartsOfFormat(Root(p), kept);
    RootOfFormat(Root(p), kept);
  }

  /** A path that names something has a non-empty stem without '/'. */
  lemma StemOfFile(p: string)
    requires Parts(p) != []
    ensures Stem(p) != "" && Sep !in Stem(p)
  {
    var n := Name(p);
    var i := LastIndexOf('.', n);
    if 0 < i < |n| - 1 {
      assert forall c :: c in n[..i] ==> c in n;
    }
  }

  /** The stem of `s + "." + e`, wherever it is placed, is `s` when the
      extension `e` holds no '.'. */
  lemma StemOfSuffixed(a: string, s: string, e: string)
    requires s != "" && Sep !in s
    requires e != "" && Sep !in e && '.' !in e
    ensures Name(JoinPath(a, s + "." + e)) == s + "." + e
    ensures Stem(JoinPath(a, s + "." + e)) == s
  {
    var n := s + "." + e;
    assert n[|s|] == '.';
    assert forall k :: |s| < k < |n| ==> n[k] == e[k - |s| - 1];
    assert IsPart(n) by {
      forall k | 0 <= k < |n| ensures n[k] != Sep {
        if k < |s| { assert n[k] == s[k] && s[k] in s; }
        else if k > |s| { assert n[k] in e; }
      }
    }
    PartsOfJoin(a, n);
    var i := LastIndexOf('.', n);
    assert i == |s| by {
      forall k | |s| < k < |n| ensures n[k] != '.' { assert n[k] in e; }
    }
    assert n[..i] == s;
  }
}
