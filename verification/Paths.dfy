/** Relative path arithmetic: the text of a link, and the directory that it leads to. */
module Paths {
  import opened CText

  // --- What a path means ---------------------------------------------------------------------------

  /** A directory of a tree without links: the names on the way from the root. */
  type Dir = seq<string>

  function Name(path: string): (r: string)
    ensures path != "" && path[0] != '/' ==> r != ""
  {
    if path == "" || path[0] == '/' then "" else [path[0]] + Name(path[1..])
  }

  function After(path: string): (r: string)
    ensures |r| <= |path| && (r != "" ==> r[0] == '/') && (path != "" && path[0] != '/' ==> |r| < |path|)
  {
    if path == "" || path[0] == '/' then path else After(path[1..])
  }

  function Enter(dir: Dir, name: string): Dir {
    if name == "." then dir
    else if name == ".." then (if dir == [] then [] else dir[..|dir| - 1])
    else dir + [name]
  }

  /** Slashes separate names, however many there are. */
  function Descend(dir: Dir, path: string): Dir
    decreases |path|
  {
    if path == "" then dir
    else if path[0] == '/' then Descend(dir, path[1..])
    else Descend(Enter(dir, Name(path)), After(path))
  }

  /** The place that a path names for a process, or a link, in dir. */
  function Resolve(dir: Dir, path: string): Dir {
    Descend(if path != "" && path[0] == '/' then [] else dir, path)
  }

  predicate Absolute(path: string) {
    path != "" && path[0] == '/'
  }

  /** A name that stands for an entry of its directory. */
  predicate Proper(name: string) {
    name != "" && name != "." && name != ".." && '/' !in name
  }

  /** Names of entries with single slashes between them. */
  predicate Clean(path: string)
    decreases |path|
  {
    path == ""
    || (path[0] != '/' && Proper(Name(path))
        && (After(path) == "" || (After(path)[1..] != "" && Clean(After(path)[1..]))))
  }

  /** Single slashes, none at the end but the root's own, and no "." or "..": what getcwd gives. */
  predicate Canonical(path: string) {
    Absolute(path) && Clean(path[1..])
  }

  lemma {:induction false} SplitFirst(path: string)
    ensures path == Name(path) + After(path) && '/' !in Name(path)
  {
    if path != "" && path[0] != '/' {
      SplitFirst(path[1..]);
    }
  }

  lemma {:induction false} DescendTwice(dir: Dir, a: string, b: string)
    requires a == "" || a[|a| - 1] == '/' || b == "" || b[0] == '/'
    ensures Descend(dir, a + b) == Descend(Descend(dir, a), b)
    decreases |a|
  {
    if a == "" {
      assert a + b == b;
    } else if a[0] == '/' {
      assert (a + b)[1..] == a[1..] + b;
      DescendTwice(dir, a[1..], b);
    } else {
      SplitFirst(a);
      if After(a) != "" {
        assert After(a)[|After(a)| - 1] == a[|a| - 1];
      } else {
        assert a[|a| - 1] in Name(a);
      }
      NameOfBoth(a, b);
      assert (a + b)[0] == a[0];
      DescendTwice(Enter(dir, Name(a)), After(a), b);
    }
  }

  lemma {:induction false} NameOfBoth(a: string, b: string)
    requires After(a) != "" || b == "" || b[0] == '/'
    ensures Name(a + b) == Name(a) && After(a + b) == After(a) + b
  {
    if a == "" {
      assert a + b == b;
    } else if a[0] != '/' {
      assert (a + b)[1..] == a[1..] + b;
      NameOfBoth(a[1..], b);
    } else {
      assert (a + b)[0] == '/';
    }
  }

  lemma DescendName(dir: Dir, name: string, rest: string)
    requires name != "" && '/' !in name
    ensures Descend(dir, name + ("/" + rest)) == Descend(Enter(dir, name), rest)
  {
    NameIsAll(name);
    NameOfBoth(name, "/" + rest);
    assert "" + ("/" + rest) == "/" + rest;
    assert (name + ("/" + rest))[0] == name[0];
    assert Descend(Enter(dir, name), "/" + rest) == Descend(Enter(dir, name), rest) by {
      assert ("/" + rest)[1..] == rest;
    }
  }

  lemma {:induction false} NameIsAll(name: string)
    requires '/' !in name
    ensures Name(name) == name && After(name) == ""
  {
    if name != "" {
      NameIsAll(name[1..]);
    }
  }

  // --- getcomponent ----------------------------------------------------------------------------------

  function SkipSlashes(path: string): (r: string)
    ensures |r| <= |path| && (path != "" && path[0] == '/' ==> |r| < |path|) && !Absolute(r)
  {
    if path != "" && path[0] == '/' then SkipSlashes(path[1..]) else path
  }

  /** The next component of a path that is not empty; a leading slash is a component of its own. */
  function First(path: string): string {
    if Absolute(path) then "/" else Name(path)
  }

  function Rest(path: string): (r: string)
    ensures !Absolute(r) && (path != "" ==> |r| < |path|)
  {
    SkipSlashes(After(path))
  }

  lemma {:induction false} DescendSlashes(dir: Dir, path: string)
    ensures Descend(dir, SkipSlashes(path)) == Descend(dir, path)
  {
    if path != "" && path[0] == '/' {
      DescendSlashes(dir, path[1..]);
    }
  }

  // --- relatepaths -----------------------------------------------------------------------------------

  /** How far two paths agree. */
  function Agree(a: string, b: string): (r: nat)
    ensures r <= |a| && r <= |b| && a[..r] == b[..r]
    ensures r < |a| && r < |b| ==> a[r] != b[r]
  {
    if a != "" && b != "" && a[0] == b[0] then 1 + Agree(a[1..], b[1..]) else 0
  }

  /** Back from k to where a component starts. */
  function Back(path: string, k: nat): (r: nat)
    requires k <= |path|
    ensures r <= k && (r > 0 ==> path[r - 1] == '/')
  {
    if k == 0 || path[k - 1] == '/' then k else Back(path, k - 1)
  }

  lemma {:induction false} BackIsLast(path: string, k: nat, j: nat)
    requires 0 < j <= k <= |path| && path[j - 1] == '/'
    ensures j <= Back(path, k)
  {
    if path[k - 1] != '/' {
      BackIsLast(path, k - 1, j);
    }
  }

  /** The length of the name, with its slash, of the closest common ancestor. */
  function Ancestor(from: string, to: string): (r: nat)
    requires Absolute(from) && Absolute(to)
    ensures 0 < r <= |from| && r <= |to| && to[..r] == from[..r] && to[r - 1] == '/'
  {
    var n := Agree(to, from);
    assert to[..n][0] == from[..n][0];
    BackIsLast(to, n, 1);
    Back(to, n)
  }

  function Ups(n: nat): string {
    if n == 0 then "" else "../" + Ups(n - 1)
  }

  function Steps(path: string): nat
    decreases |path|
  {
    if path == "" then 0 else 1 + Steps(Rest(path))
  }

  /** Every component followed by a slash. */
  function Copied(path: string): string
    decreases |path|
  {
    if path == "" then "" else First(path) + ("/" + Copied(Rest(path)))
  }

  function LinkText(from: string, to: string): string
    requires Absolute(from) && Absolute(to)
  {
    var k := Ancestor(from, to);
    if k == 1 then to + "/" else Ups(Steps(from[k..])) + Copied(to[k..])
  }

  lemma {:induction false} UpsEnd(n: nat)
    ensures Ups(n + 1) == Ups(n) + "../"
    ensures n > 0 ==> Ups(n)[|Ups(n)| - 1] == '/' && Ups(n)[0] == '.'
  {
    if n > 0 {
      UpsEnd(n - 1);
      assert Ups(n + 1) == "../" + (Ups(n - 1) + "../");
    }
  }

  /** The first component of a clean path leads into an entry of the directory. */
  lemma CleanDescends(dir: Dir, path: string)
    requires Clean(path) && path != ""
    ensures Descend(dir, path) == Descend(dir + [Name(path)], Rest(path))
  {
    hide Clean;
    CleanStep(path);
    DescendSlashes(dir + [Name(path)], After(path));
  }

  lemma UpOne(dir: Dir, name: string)
    ensures Descend(dir + [name], "../") == dir
  {
    hide Descend;
    DescendName(dir + [name], "..", "");
    assert ".." + ("/" + "") == "../";
    assert (dir + [name])[..|dir|] == dir;
    DescendNothing(dir);
  }

  lemma DescendNothing(dir: Dir)
    ensures Descend(dir, "") == dir
  {
  }

  /** Every component of a clean path is undone by one "../". */
  lemma {:induction false} UpAgain(dir: Dir, path: string)
    requires Clean(path)
    ensures Descend(Descend(dir, path), Ups(Steps(path))) == dir
    decreases |path|
  {
    hide Clean, Descend;
    if path != "" {
      var c, rest := Name(path), Rest(path);
      CleanStep(path);
      CleanDescends(dir, path);
      UpAgain(dir + [c], rest);
      UpsEnd(Steps(rest));
      DescendTwice(Descend(dir, path), Ups(Steps(rest)), "../");
      UpOne(dir, c);
    } else {
      DescendNothing(dir);
    }
  }

  lemma CleanStep(path: string)
    requires Clean(path) && path != ""
    ensures !Absolute(path) && Proper(Name(path)) && Clean(Rest(path))
  {
    if After(path) != "" {
      var u := After(path)[1..];
      assert u[0] != '/';
      assert SkipSlashes(After(path)) == SkipSlashes(u) == u;
    }
  }

  lemma {:induction false} CopiedLeadsThere(dir: Dir, path: string)
    ensures Descend(dir, Copied(path)) == Descend(dir, path)
    ensures Copied(path) == "" || Copied(path)[|Copied(path)| - 1] == '/'
    decreases |path|
  {
    if path != "" {
      var rest := Rest(path);
      if Absolute(path) {
        CopiedLeadsThere(dir, rest);
        DescendSlashes(dir, path);
        assert (First(path) + ("/" + Copied(rest)))[1..] == "/" + Copied(rest);
        assert ("/" + Copied(rest))[1..] == Copied(rest);
        assert After(path) == path;
      } else {
        var d := Enter(dir, Name(path));
        CopiedLeadsThere(d, rest);
        SplitFirst(path);
        DescendName(dir, Name(path), Copied(rest));
        DescendSlashes(d, After(path));
      }
    }
  }

  lemma {:induction false} SlashIsBehind(path: string, k: nat)
    requires 0 < k <= |path| && path[k - 1] == '/'
    ensures |Name(path)| < k
  {
    if path[0] != '/' {
      assert path[1..][k - 2] == '/';
      SlashIsBehind(path[1..], k - 1);
    }
  }

  lemma CleanTail(path: string)
    requires Clean(path) && After(path) != ""
    ensures After(path)[1..] != "" && Clean(After(path)[1..])
  {
  }

  /** A clean path that is cut behind a slash stays clean, and something is left of it. */
  lemma {:induction false} CleanCut(path: string, k: nat)
    requires Clean(path) && 0 < k <= |path| && path[k - 1] == '/'
    ensures k < |path| && Clean(path[k..])
    decreases |path|
  {
    hide Clean, Name, After;
    var c, u := Name(path), After(path);
    SplitFirst(path);
    assert k - 1 >= |c|;
    assert u[k - 1 - |c|] == path[k - 1];
    CleanTail(path);
    assert path[|c| + 1..] == u[1..];
    if k > |c| + 1 {
      var j := k - |c| - 1;
      assert path[k..] == u[1..][j..];
      assert path[k - 1] == u[1..][j - 1];
      CleanCut(u[1..], j);
    }
  }

  /** The link leads, from the directory it is put in, to where the name leads from the other directory,
      whatever the name is and however the other directory is written. */
  lemma RelatePathsIsCorrect(from: string, to: string, name: string)
    requires Canonical(from) && Absolute(to) && !Absolute(name)
    ensures Resolve(Resolve([], from), LinkText(from, to) + name) == Resolve(Resolve([], to), name)
  {
    var link := LinkText(from, to);
    if Ancestor(from, to) == 1 {
      assert link + name == to + ("/" + name);
      DescendTwice([], to, "/" + name);
      assert ("/" + name)[1..] == name;
    } else {
      RelativeLink(from, to);
      DescendTwice(Descend([], from), link, name);
      assert (link + name)[0] == link[0];
    }
  }

  lemma RelativeLink(from: string, to: string)
    requires Canonical(from) && Absolute(to) && Ancestor(from, to) > 1
    ensures var link := LinkText(from, to);
            && link != "" && link[0] == '.' && link[|link| - 1] == '/'
            && Descend(Descend([], from), link) == Descend([], to)
  {
    hide Descend, Clean, Copied, Steps, Ups, Agree, Back;
    var k := Ancestor(from, to);
    var up, f, t := to[..k], from[k..], to[k..];
    assert from == up + f && to == up + t;
    assert f == from[1..][k - 1..] && from[1..][k - 2] == '/';
    CleanCut(from[1..], k - 1);
    FarSide(up, f, t);
  }

  /** Up by the clean way f and down by t. */
  lemma FarSide(up: string, f: string, t: string)
    requires up != "" && up[|up| - 1] == '/' && f != "" && Clean(f)
    ensures var link := Ups(Steps(f)) + Copied(t);
            && link != "" && link[0] == '.' && link[|link| - 1] == '/'
            && Descend(Descend([], up + f), link) == Descend([], up + t)
  {
    hide Descend, Clean, Copied;
    var d := Descend([], up);
    DescendTwice([], up, f);
    DescendTwice([], up, t);
    UpAgain(d, f);
    UpsEnd(Steps(f));
    CopiedLeadsThere(d, t);
    DescendTwice(Descend(d, f), Ups(Steps(f)), Copied(t));
  }

  lemma {:induction false} AgreeIsLongest(a: string, b: string, k: nat)
    requires k <= |a| && k <= |b| && a[..k] == b[..k]
    ensures k <= Agree(a, b)
  {
    if k > 0 {
      assert a[..k][0] == b[..k][0];
      assert a[1..][..k - 1] == a[..k][1..] && b[1..][..k - 1] == b[..k][1..];
      AgreeIsLongest(a[1..], b[1..], k - 1);
    }
  }

  /** No ancestor that both paths name is longer; and the link is an absolute path only if the root is the
      closest. */
  lemma AncestorIsClosest(from: string, to: string, k: nat)
    requires Canonical(from) && Absolute(to)
    requires 0 < k <= |from| && k <= |to| && from[..k] == to[..k] && to[k - 1] == '/'
    ensures k <= Ancestor(from, to)
    ensures Absolute(LinkText(from, to)) <==> Ancestor(from, to) == 1
  {
    var a, n := Ancestor(from, to), Agree(to, from);
    AgreeIsLongest(to, from, k);
    BackIsLast(to, n, k);
    if a != 1 {
      RelativeLink(from, to);
    }
  }

  /** For instance; for the root the link has two slashes. */
  lemma LinksLook()
    ensures LinkText("/a/b", "/a/c") == "../c/"
    ensures LinkText("/a", "/b") == "/b/" && LinkText("/a", "/") == "//"
  {
    var from, to := "/a/b", "/a/c";
    assert to[1..] == "a/c" && from[1..] == "a/b" && "a/c"[1..] == "/c" && "a/b"[1..] == "/b";
    assert "/c"[1..] == "c" && "/b"[1..] == "b" && "/a"[1..] == "a" && "/"[1..] == "" && "b"[1..] == "" && "c"[1..] == "";
    assert Agree("c", "b") == 0 && Agree("/c", "/b") == 1 && Agree("a/c", "a/b") == 2;
    assert Agree(to, from) == 3 && Back(to, 3) == 3;
    assert from[3..] == "b" && to[3..] == "c";
    assert After("") == "" && After("b") == "" && After("c") == "" && Name("") == "" && Name("c") == "c";
    assert Rest("b") == "" && Rest("c") == "" && Steps("b") == 1 && Copied("c") == "c" + ("/" + "");
    assert Ups(0) == "" && Ups(1) == "../" + "";
    assert Agree("b", "a") == 0 && Agree("/b", "/a") == 1 && Back("/b", 1) == 1;
    assert Agree("", "a") == 0 && Agree("/", "/a") == 1 && Back("/", 1) == 1;
  }

  // --- The functions as they run ---------------------------------------------------------------------

  /** strcpy(a + at, s) */
  method StrCpy(a: array<char>, at: nat, s: string)
    requires at + |s| < a.Length
    modifies a
    ensures a[..at] == old(a[..at]) && a[at..at + |s|] == s && a[at + |s|] == '\0'
    ensures a[at + |s| + 1..] == old(a[at + |s| + 1..])
  {
    for i := 0 to |s|
      invariant a[..at] == old(a[..at]) && a[at..at + i] == s[..i] && a[at + i..] == old(a[at + i..])
    {
      a[at + i] := s[i];
      assert a[at..at + i + 1] == a[at..at + i] + [s[i]];
    }
    a[at + |s|] := '\0';
    assert a[at..at + |s|] == s[..|s|] == s;
  }

  /** getcomponent */
  method GetComponent(path: string, p: nat) returns (name: string, next: Option<nat>)
    requires p <= |path|
    ensures next == None <==> p == |path|
    ensures next.Some? ==> name == First(path[p..])
    ensures next.Some? ==> p < next.value <= |path| && path[next.value..] == Rest(path[p..])
  {
    if p == |path| {
      return "", None;
    }
    var q := p;
    if path[p] == '/' {
      name := "/";
    } else {
      name := "";
      while q < |path| && path[q] != '/'
        invariant p <= q <= |path| && ((q < |path| && path[q] != '/') || q > p)
        invariant name + Name(path[q..]) == Name(path[p..]) && After(path[q..]) == After(path[p..])
      {
        Tail(path, q);
        assert name + Name(path[q..]) == (name + [path[q]]) + Name(path[q + 1..]);
        name := name + [path[q]];
        q := q + 1;
      }
      assert name + "" == name;
    }
    assert After(path[p..]) == path[q..];
    while q < |path| && path[q] == '/'
      invariant p <= q <= |path| && SkipSlashes(path[q..]) == Rest(path[p..]) && (path[p] == '/' || p < q)
    {
      Tail(path, q);
      q := q + 1;
    }
    next := Some(q);
  }

  /** relatepaths */
  method RelatePaths(from: string, to: string, outpath: array<char>) returns (len: nat)
    requires Absolute(from) && Absolute(to) && |LinkText(from, to)| < outpath.Length
    modifies outpath
    ensures len == |LinkText(from, to)| && outpath[..len] == LinkText(from, to)
    ensures len > 0 ==> outpath[len] == '\0'
  {
    var cp, cp2 := CommonAncestor(from, to);
    if cp - 1 == 0 {
      StrCpy(outpath, 0, to);
      len := |to|;
      assert outpath[..len] == outpath[0..0 + |to|] == to;
      if outpath[len] != '/' {
        outpath[len] := '/';
        len := len + 1;
        outpath[len] := '\0';
      }
      assert outpath[..len] == to + "/";
    } else {
      len := Climb(from, cp2, outpath, Copied(to[cp..]));
      len := CopyDown(to, cp, outpath, len);
    }
  }

  /** The two loops that find the closest common ancestor. */
  method CommonAncestor(from: string, to: string) returns (cp: nat, cp2: nat)
    requires Absolute(from) && Absolute(to)
    ensures cp == cp2 == Ancestor(from, to)
  {
    cp, cp2 := 0, 0;
    assert to[0..] == to && from[0..] == from;
    while cp < |to| && cp2 < |from| && to[cp] == from[cp2]
      invariant 0 <= cp == cp2 <= |to| && cp2 <= |from|
      invariant cp + Agree(to[cp..], from[cp..]) == Agree(to, from)
    {
      Tail(to, cp);
      Tail(from, cp2);
      cp, cp2 := cp + 1, cp2 + 1;
    }
    while to[cp - 1] != '/'
      invariant 0 < cp == cp2 <= |to| && Back(to, cp) == Ancestor(from, to)
      decreases cp
    {
      cp, cp2 := cp - 1, cp2 - 1;
    }
  }

  /** strcpy(outpath + len, s), and len moves behind it. */
  method Append(outpath: array<char>, len0: nat, s: string) returns (len: nat)
    requires len0 + |s| < outpath.Length
    modifies outpath
    ensures len == len0 + |s| && outpath[..len] == old(outpath[..len0]) + s && outpath[len] == '\0'
  {
    StrCpy(outpath, len0, s);
    len := len0 + |s|;
    assert outpath[..len] == outpath[..len0] + outpath[len0..len];
  }

  lemma Regroup(a: string, b: string, c: string, total: string)
    requires a + (b + c) == total
    ensures (a + b) + c == total && |a| + |b| <= |total|
  {
  }

  lemma UpRound(out: string, path: string, total: string)
    requires path != "" && out + Ups(Steps(path)) == total
    ensures (out + "../") + Ups(Steps(Rest(path))) == total && |out| + 3 <= |total|
  {
    Regroup(out, "../", Ups(Steps(Rest(path))), total);
  }

  method Climb(from: string, p: nat, outpath: array<char>, ghost rest: string) returns (len: nat)
    requires p <= |from| && |Ups(Steps(from[p..])) + rest| < outpath.Length
    modifies outpath
    ensures len == |Ups(Steps(from[p..]))| && outpath[..len] == Ups(Steps(from[p..]))
    ensures len > 0 ==> outpath[len] == '\0'
  {
    hide Ups, Steps, Rest, First;
    ghost var total := Ups(Steps(from[p..]));
    len := 0;
    var cp2 := p;
    assert outpath[..0] + total == total;
    while true
      invariant cp2 <= |from| && len <= |total| && outpath[..len] + Ups(Steps(from[cp2..])) == total
      invariant len > 0 ==> outpath[len] == '\0'
      decreases |from| - cp2
    {
      var name, next := GetComponent(from, cp2);
      if next.None? {
        NoMore(outpath[..len]);
        assert from[cp2..] == "";
        return;
      }
      UpRound(outpath[..len], from[cp2..], total);
      len := Append(outpath, len, "../");
      cp2 := next.value;
    }
  }

  lemma NoMore(out: string)
    ensures out + Ups(Steps("")) == out + Copied("") == out
  {
  }

  lemma CopyRound(out: string, path: string, total: string)
    requires path != "" && out + Copied(path) == total
    ensures (out + (First(path) + "/")) + Copied(Rest(path)) == total && |out| + |First(path)| + 1 <= |total|
  {
    hide First, Rest;
    assert First(path) + ("/" + Copied(Rest(path))) == (First(path) + "/") + Copied(Rest(path));
    Regroup(out, First(path) + "/", Copied(Rest(path)), total);
  }

  method CopyDown(to: string, p: nat, outpath: array<char>, len0: nat) returns (len: nat)
    requires p <= |to| && len0 + |Copied(to[p..])| < outpath.Length
    requires len0 > 0 ==> outpath[len0] == '\0'
    modifies outpath
    ensures len == len0 + |Copied(to[p..])| && outpath[..len] == old(outpath[..len0]) + Copied(to[p..])
    ensures len > 0 ==> outpath[len] == '\0'
  {
    hide Copied, Rest, First;
    ghost var total := outpath[..len0] + Copied(to[p..]);
    len := len0;
    var cp := p;
    while true
      invariant cp <= |to| && len <= |total| && outpath[..len] + Copied(to[cp..]) == total
      invariant len > 0 ==> outpath[len] == '\0'
      decreases |to| - cp
    {
      var name, next := GetComponent(to, cp);
      if next.None? {
        NoMore(outpath[..len]);
        assert to[cp..] == "";
        return;
      }
      CopyRound(outpath[..len], to[cp..], total);
      len := Append(outpath, len, name + "/");
      cp := next.value;
    }
  }
}
