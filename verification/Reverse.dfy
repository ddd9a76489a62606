/** Reversing a relative path: walking it while writing, back to front, the way back. */
module Reverse {
  import opened CText
  import opened Paths

  /** Directories of a tree: named entries of directories of the tree. */
  ghost predicate WellFormed(tree: set<Dir>) {
    forall d | d in tree && d != [] :: Proper(d[|d| - 1]) && d[..|d| - 1] in tree
  }

  /** The name under which ".." lists a directory. The root lists itself as "." and as "..", and rootName is
      the one that comes first. */
  function NameInParent(rootName: string, cwd: Dir): string {
    if cwd == [] then rootName else cwd[|cwd| - 1]
  }

  datatype Walk = Walk(ok: bool, cwd: Dir, text: string)

  /** What is left of a walk along path with text already written. */
  function Reversed(tree: set<Dir>, rootName: string, cwd: Dir, path: string, text: string): (w: Walk)
    ensures |text| <= |w.text|
    decreases |path|
  {
    if path == "" then Walk(true, cwd, text)
    else
      var c := First(path);
      if c == "." then Reversed(tree, rootName, cwd, Rest(path), text)
      else if c == ".." then
        Reversed(tree, rootName, Enter(cwd, ".."), Rest(path), NameInParent(rootName, cwd) + ("/" + text))
      else if cwd + [c] in tree then Reversed(tree, rootName, cwd + [c], Rest(path), ".." + ("/" + text))
      else Walk(false, cwd, ".." + ("/" + text))
  }

  /** One step up or down moves the current directory and keeps the place that the text names. */
  lemma StepUp(rootName: string, cwd: Dir, text: string)
    requires (cwd != [] ==> Proper(cwd[|cwd| - 1])) && rootName in {".", ".."} && !Absolute(text)
    ensures var up := NameInParent(rootName, cwd) + ("/" + text);
            !Absolute(up) && Resolve(Enter(cwd, ".."), up) == Resolve(cwd, text)
  {
    hide Descend;
    var n := NameInParent(rootName, cwd);
    assert n != "" && '/' !in n;
    DescendName(Enter(cwd, ".."), n, text);
    assert (n + ("/" + text))[0] == n[0];
    if cwd != [] {
      assert cwd[..|cwd| - 1] + [n] == cwd;
    }
  }

  lemma StepDown(cwd: Dir, c: string, text: string)
    requires !Absolute(text)
    ensures Resolve(cwd + [c], ".." + ("/" + text)) == Resolve(cwd, text)
  {
    hide Descend;
    DescendName(cwd + [c], "..", text);
    assert (".." + ("/" + text))[0] == '.';
    assert (cwd + [c])[..|cwd|] == cwd;
  }

  /** The walk ends where the path leads, and from there the text leads to where it led at the start. */
  lemma {:induction false} ReversePathIsCorrect(tree: set<Dir>, rootName: string, cwd: Dir, path: string, text: string)
    requires WellFormed(tree) && cwd in tree && rootName in {".", ".."} && !Absolute(text) && !Absolute(path)
    ensures var w := Reversed(tree, rootName, cwd, path, text);
            w.ok ==> w.cwd == Resolve(cwd, path) && !Absolute(w.text) && Resolve(w.cwd, w.text) == Resolve(cwd, text)
    decreases |path|
  {
    if path != "" {
      var c, rest := First(path), Rest(path);
      SplitFirst(path);
      DescendSlashes(Enter(cwd, c), After(path));
      if c == "." {
        ReversePathIsCorrect(tree, rootName, cwd, rest, text);
      } else if c == ".." {
        StepUp(rootName, cwd, text);
        ReversePathIsCorrect(tree, rootName, Enter(cwd, c), rest, NameInParent(rootName, cwd) + ("/" + text));
      } else if cwd + [c] in tree {
        StepDown(cwd, c, text);
        ReversePathIsCorrect(tree, rootName, cwd + [c], rest, ".." + ("/" + text));
      }
    }
  }

  /** For instance a step down, behind a step on the spot that leaves no trace, and a step up. */
  lemma WalksLook()
    ensures Reversed({[], ["b"]}, ".", [], "./b", "n") == Walk(true, ["b"], "../n")
    ensures Reversed({[], ["b"]}, ".", ["b"], "..", "n") == Walk(true, [], "b/n")
  {
    var tree: set<Dir> := {[], ["b"]};
    assert "./b"[1..] == "/b" && "/b"[1..] == "b" && "b"[1..] == "" && ".."[1..] == "." && "."[1..] == "";
    assert Name("") == "" && After("") == "" && Name("/b") == "" && After("/b") == "/b";
    assert Name("./b") == "." && After("./b") == "/b" && SkipSlashes("/b") == "b";
    assert Name("b") == "b" && After("b") == "" && Name(".") == "." && After(".") == "";
    assert Name("..") == ".." && After("..") == "";
    assert Rest("./b") == "b" && Rest("b") == "" && Rest("..") == "";
    assert [] + ["b"] == ["b"] && ["b"][..0] == [] && "b" != "." && "b" != "..";
    assert Reversed(tree, ".", ["b"], "", ".." + ("/" + "n")) == Walk(true, ["b"], "../n");
    assert Reversed(tree, ".", [], "b", "n") == Walk(true, ["b"], "../n");
    assert Reversed(tree, ".", [], "", "b" + ("/" + "n")) == Walk(true, [], "b/n");
  }

  // --- When the walk succeeds -----------------------------------------------------------------------

  /** Every directory that the path goes through exists. */
  ghost predicate Passable(tree: set<Dir>, cwd: Dir, path: string) {
    forall k | Boundary(path, k) :: Descend(cwd, path[..k]) in tree
  }

  predicate Boundary(path: string, k: int) {
    0 <= k <= |path| && (k == |path| || path[k] == '/')
  }

  lemma {:induction false} PassableSlashes(tree: set<Dir>, cwd: Dir, path: string)
    requires cwd in tree
    ensures Passable(tree, cwd, SkipSlashes(path)) <==> Passable(tree, cwd, path)
  {
    if path != "" && path[0] == '/' {
      PassableSlashes(tree, cwd, path[1..]);
      forall k | 0 < k <= |path|
        ensures Descend(cwd, path[..k]) == Descend(cwd, path[1..][..k - 1])
        ensures Boundary(path, k) == Boundary(path[1..], k - 1)
      {
        assert path[..k][1..] == path[1..][..k - 1];
      }
      assert path[..0] == "";
      if Passable(tree, cwd, path) {
        forall k | Boundary(path[1..], k) ensures Descend(cwd, path[1..][..k]) in tree {
          assert Boundary(path, k + 1);
        }
      }
    }
  }

  lemma PassableStep(tree: set<Dir>, cwd: Dir, path: string)
    requires cwd in tree && path != "" && !Absolute(path)
    ensures var d := Enter(cwd, Name(path));
            Passable(tree, cwd, path) <==> d in tree && Passable(tree, d, Rest(path))
  {
    hide Enter;
    var c, u := Name(path), After(path);
    var d, n := Enter(cwd, c), |c|;
    SplitFirst(path);
    assert path[..n] == c;
    NameIsAll(c);
    assert Descend(cwd, c) == d;
    assert Boundary(path, n);
    forall k | 0 <= k <= |u| && Boundary(u, k)
      ensures Boundary(path, n + k) && Descend(cwd, path[..n + k]) == Descend(d, u[..k])
    {
      assert path[..n + k] == c + u[..k];
      DescendTwice(cwd, c, u[..k]);
    }
    if d in tree {
      forall k | Boundary(path, k) ensures k >= n && Boundary(u, k - n) {
        if k < |path| {
          SlashIsBehind(path, k + 1);
        }
      }
      if Passable(tree, d, u) {
        forall k | Boundary(path, k) ensures Descend(cwd, path[..k]) in tree {
          assert Boundary(u, k - n);
        }
      }
      if Passable(tree, cwd, path) {
        forall k | Boundary(u, k) ensures Descend(d, u[..k]) in tree {
          assert Boundary(path, n + k);
        }
      }
      PassableSlashes(tree, d, u);
    }
  }

  /** The walk fails only at a directory that does not exist. */
  lemma {:induction false} WalkSucceeds(tree: set<Dir>, rootName: string, cwd: Dir, path: string, text: string)
    requires WellFormed(tree) && cwd in tree && !Absolute(path)
    ensures Reversed(tree, rootName, cwd, path, text).ok <==> Passable(tree, cwd, path)
    decreases |path|
  {
    if path == "" {
      assert path[..0] == "";
      forall k | Boundary(path, k) ensures Descend(cwd, path[..k]) in tree {
      }
    } else {
      var c, rest := First(path), Rest(path);
      SplitFirst(path);
      PassableStep(tree, cwd, path);
      if c == "." {
        WalkSucceeds(tree, rootName, cwd, rest, text);
      } else if c == ".." {
        WalkSucceeds(tree, rootName, Enter(cwd, c), rest, NameInParent(rootName, cwd) + ("/" + text));
      } else if cwd + [c] in tree {
        WalkSucceeds(tree, rootName, cwd + [c], rest, ".." + ("/" + text));
      }
    }
  }

  // --- The function as it runs ----------------------------------------------------------------------

  class Process {
    const tree: set<Dir>
    const rootName: string
    var cwd: Dir

    ghost predicate Valid()
      reads this
    {
      WellFormed(tree) && cwd in tree && rootName in {".", ".."}
    }

    constructor (tree: set<Dir>, rootName: string, cwd: Dir)
      requires WellFormed(tree) && cwd in tree && rootName in {".", ".."}
      ensures Valid() && this.tree == tree && this.rootName == rootName && this.cwd == cwd
    {
      this.tree, this.rootName, this.cwd := tree, rootName, cwd;
    }

    /** chdir to an entry of the current directory. */
    method Chdir(name: string) returns (ok: bool)
      requires Valid()
      modifies this
      ensures Valid() && ok == (Enter(old(cwd), name) in tree)
      ensures cwd == if ok then Enter(old(cwd), name) else old(cwd)
    {
      ok := Enter(cwd, name) in tree;
      if ok {
        cwd := Enter(cwd, name);
      }
    }
  }

  /** reversepath; ok is false when xchdir gives up. */
  method ReversePath(p: Process, inpath: string, name: string, outpath: array<char>) returns (ok: bool)
    requires p.Valid() && !Absolute(inpath)
    requires |Reversed(p.tree, p.rootName, p.cwd, inpath, name).text| < outpath.Length
    modifies p, outpath
    ensures p.Valid()
    ensures var w := Reversed(p.tree, p.rootName, old(p.cwd), inpath, name);
            && ok == w.ok && p.cwd == w.cwd
            && (ok ==> outpath[..|w.text|] == w.text && outpath[|w.text|] == '\0')
  {
    hide First, Rest, Reversed, WellFormed;
    ghost var w := Reversed(p.tree, p.rootName, p.cwd, inpath, name);
    var end := outpath.Length - 1;
    var cp := end - |name|;
    StrCpy(outpath, cp, name);
    assert outpath[cp..end] == name;
    var cp2 := 0;
    assert inpath[0..] == inpath;
    while true
      invariant 0 <= cp <= end && cp2 <= |inpath| && p.Valid() && !Absolute(inpath[cp2..])
      invariant Reversed(p.tree, p.rootName, p.cwd, inpath[cp2..], outpath[cp..end]) == w
      decreases |inpath| - cp2
    {
      var buf, next := GetComponent(inpath, cp2);
      if next.None? {
        break;
      }
      Round(p.tree, p.rootName, p.cwd, inpath[cp2..], outpath[cp..end]);
      cp2 := next.value;
      if buf == "." {
        continue;
      }
      if buf == ".." {
        var parent := NameInParent(p.rootName, p.cwd);
        cp := Prepend(outpath, cp, end, parent);
        ok := p.Chdir("..");
      } else {
        cp := Prepend(outpath, cp, end, "..");
        ok := p.Chdir(buf);
        if !ok {
          return;
        }
      }
    }
    assert inpath[cp2..] == "";
    Arrived(p.tree, p.rootName, p.cwd, outpath[cp..end]);
    var text := outpath[cp..end];
    StrCpy(outpath, 0, text);
    assert outpath[..|text|] == outpath[0..0 + |text|];
    ok := true;
  }

  lemma Arrived(tree: set<Dir>, rootName: string, cwd: Dir, text: string)
    ensures Reversed(tree, rootName, cwd, "", text) == Walk(true, cwd, text)
  {
  }

  lemma Round(tree: set<Dir>, rootName: string, cwd: Dir, path: string, text: string)
    requires WellFormed(tree) && cwd in tree && path != "" && !Absolute(path)
    ensures !Absolute(Rest(path)) && (cwd == [] || cwd[..|cwd| - 1] in tree)
    ensures var c, w := First(path), Reversed(tree, rootName, cwd, path, text);
            var up, down := NameInParent(rootName, cwd) + ("/" + text), ".." + ("/" + text);
            && (c == "." ==> w == Reversed(tree, rootName, cwd, Rest(path), text))
            && (c == ".." ==> w == Reversed(tree, rootName, Enter(cwd, c), Rest(path), up) && |up| <= |w.text|)
            && (c != "." && c != ".." ==> |down| <= |w.text|)
            && (c != "." && c != ".." ==>
                  w == if cwd + [c] in tree then Reversed(tree, rootName, cwd + [c], Rest(path), down)
                       else Walk(false, cwd, down))
  {
  }

  /** cp moves back over name and a slash, which are written there. */
  method Prepend(outpath: array<char>, cp0: int, end: int, name: string) returns (cp: int)
    requires 0 <= cp0 <= end == outpath.Length - 1 && |name| + 1 <= cp0
    modifies outpath
    ensures cp == cp0 - (|name| + 1) && outpath[cp..end] == name + ("/" + old(outpath[cp0..end]))
  {
    cp := cp0 - (|name| + 1);
    StrCpy(outpath, cp, name);
    outpath[cp + |name|] := '/';
    assert outpath[cp0..end] == old(outpath[cp0..end]);
    assert outpath[cp..end] == outpath[cp..cp + |name|] + ([outpath[cp + |name|]] + outpath[cp0..end]);
  }
}
