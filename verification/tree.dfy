/**
 * Paths into the node tree of src/node.rs: looking a node up by its
 * segments, replacing the node at a path (how an update through a `&mut`
 * cursor shows on the tree as a value), and `mkdir -p` as a recursive
 * function on the tree, the specification of the loop in
 * `KfileSystem::mkdir`.
 */
module Tree {
  import opened Wrappers
  import opened Node

  /**
   * The node a path names: each segment but the last must name a folder
   * child, the last any child. A missing name or a file on the way gives
   * nothing; the empty path names the node itself, and anything below it
   * only when it is a folder.
   */
  function Lookup(n: Knode, path: seq<string>): (r: Option<Knode>)
    ensures path != [] && r.Some? ==> n.Folder? && path[0] in n.folder.children
    decreases |path|
  {
    if path == [] then Some(n)
    else match n
      case Folder(f) =>
        if path[0] in f.children then Lookup(f.children[path[0]], path[1..]) else None
      case File(_) => None
  }

  /** Whatever a non-empty path names lies inside the folder its parent path names. */
  lemma {:induction false} LookupParent(n: Knode, path: seq<string>)
    requires path != [] && Lookup(n, path).Some?
    ensures IsFolderAt(n, path[..|path| - 1])
    decreases |path|
  {
    var parent := path[..|path| - 1];
    if |path| == 1 {
      assert parent == [];
    } else {
      var f := n.folder;
      LookupParent(f.children[path[0]], path[1..]);
      assert parent == [path[0]] + path[1..][..|path| - 2];
      LookupFirst(f, path[0], path[1..][..|path| - 2]);
    }
  }

  predicate IsFolderAt(n: Knode, path: seq<string>)
  {
    Lookup(n, path).Some? && Lookup(n, path).value.Folder?
  }

  predicate IsFileAt(n: Knode, path: seq<string>)
  {
    Lookup(n, path).Some? && Lookup(n, path).value.File?
  }

  /** Looking up `p + q` is looking up `p`, then `q` from where that leads. */
  lemma {:induction false} LookupAppend(n: Knode, p: seq<string>, q: seq<string>)
    ensures Lookup(n, p + q) == if Lookup(n, p).None? then None else Lookup(Lookup(n, p).value, q)
    decreases |p|
  {
    if p != [] {
      assert (p + q)[0] == p[0] && (p + q)[1..] == p[1..] + q;
      if n.Folder? && p[0] in n.folder.children {
        LookupAppend(n.folder.children[p[0]], p[1..], q);
      }
    } else {
      assert p + q == q;
    }
  }

  /** A path that goes on past a file names nothing. */
  lemma LookupThroughFile(n: Knode, p: seq<string>, q: seq<string>)
    requires IsFileAt(n, p) && q != []
    ensures Lookup(n, p + q) == None
  {
    LookupAppend(n, p, q);
  }

  /** One step of a walk from a folder reached by `place` into its child `t`. */
  lemma StepInto(n: Knode, place: seq<string>, v: Kfolder, t: string)
    requires Lookup(n, place) == Some(Folder(v))
    ensures Lookup(n, place + [t]) == if t in v.children then Some(v.children[t]) else None
  {
    LookupAppend(n, place, [t]);
    LookupFirst(v, t, []);
    assert [t] + [] == [t];
  }

  /** A walk that meets a file or a missing child before its end finds nothing. */
  lemma WalkStopped(n: Knode, place: seq<string>, rest: seq<string>)
    requires rest != []
    requires Lookup(n, place).None? || Lookup(n, place).value.File?
    ensures Lookup(n, place + rest) == None
  {
    if Lookup(n, place).None? {
      LookupThroughMissing(n, place, rest);
    } else {
      LookupThroughFile(n, place, rest);
    }
  }

  /** A path that goes on past a missing name names nothing. */
  lemma LookupThroughMissing(n: Knode, p: seq<string>, q: seq<string>)
    requires Lookup(n, p).None?
    ensures Lookup(n, p + q) == None
  {
    LookupAppend(n, p, q);
  }

  /**
   * `n` with the node at `path` replaced by `m`; where `path` names nothing,
   * `n` comes back unchanged.
   */
  function Graft(n: Knode, path: seq<string>, m: Knode): Knode
    decreases |path|
  {
    if path == [] then m
    else match n
      case Folder(f) =>
        if path[0] in f.children
        then Folder(Kfolder(f.children[path[0] := Graft(f.children[path[0]], path[1..], m)]))
        else n
      case File(_) => n
  }

  /** After the replacement the path names the new node. */
  lemma {:induction false} GraftLookup(n: Knode, path: seq<string>, m: Knode)
    requires Lookup(n, path).Some?
    ensures Lookup(Graft(n, path, m), path) == Some(m)
    decreases |path|
  {
    if path != [] {
      GraftLookup(n.folder.children[path[0]], path[1..], m);
    }
  }

  /** Putting back the node a path already names changes nothing. */
  lemma {:induction false} GraftSelf(n: Knode, path: seq<string>)
    requires Lookup(n, path).Some?
    ensures Graft(n, path, Lookup(n, path).value) == n
    decreases |path|
  {
    if path != [] {
      var f := n.folder;
      GraftSelf(f.children[path[0]], path[1..]);
      assert f.children[path[0] := f.children[path[0]]] == f.children;
    }
  }

  /** A replacement below `p` inside a replacement at `p` is one replacement at `p`. */
  lemma {:induction false} GraftGraft(n: Knode, p: seq<string>, x: Knode, q: seq<string>, c: Knode)
    requires Lookup(n, p).Some?
    ensures Graft(Graft(n, p, x), p + q, c) == Graft(n, p, Graft(x, q, c))
    decreases |p|
  {
    if p == [] {
      assert p + q == q;
    } else {
      var f, t := n.folder, p[0];
      var below := f.children[t];
      var inner := Graft(below, p[1..], x);
      var outer := Graft(below, p[1..], Graft(x, q, c));
      var g := Kfolder(f.children[t := inner]);
      assert Graft(n, p, x) == Folder(g);
      assert (p + q)[0] == t && (p + q)[1..] == p[1..] + q;
      assert Graft(Folder(g), p + q, c) == Folder(Kfolder(g.children[t := Graft(inner, p[1..] + q, c)]));
      GraftGraft(below, p[1..], x, q, c);
      assert g.children[t := outer] == f.children[t := outer];
      assert Graft(n, p, Graft(x, q, c)) == Folder(Kfolder(f.children[t := outer]));
    }
  }

  /**
   * `b` keeps all of `a`: every path that names something in `a` names the
   * same file or again a folder in `b`. Nothing is removed, and nothing is
   * replaced by a node of the other kind.
   */
  ghost predicate Grows(a: Knode, b: Knode)
  {
    forall p :: Lookup(a, p).Some? ==>
      && Lookup(b, p).Some?
      && (Lookup(a, p).value.File? ==> Lookup(b, p) == Lookup(a, p))
      && (Lookup(a, p).value.Folder? ==> Lookup(b, p).value.Folder?)
  }

  lemma GrowsTransitive(a: Knode, b: Knode, c: Knode)
    requires Grows(a, b) && Grows(b, c)
    ensures Grows(a, c)
  {
  }

  /** Replacing a node by one that keeps all of it keeps all of the tree. */
  lemma {:induction false} GraftGrows(n: Knode, path: seq<string>, m: Knode)
    requires Lookup(n, path).Some? && Grows(Lookup(n, path).value, m)
    ensures Grows(n, Graft(n, path, m))
    decreases |path|
  {
    if path != [] {
      var f, t := n.folder, path[0];
      var c := f.children[t];
      GraftGrows(c, path[1..], m);
      var g := Kfolder(f.children[t := Graft(c, path[1..], m)]);
      assert Graft(n, path, m) == Folder(g);
      forall p | Lookup(n, p).Some?
        ensures Lookup(Folder(g), p).Some?
        ensures Lookup(n, p).value.File? ==> Lookup(Folder(g), p) == Lookup(n, p)
        ensures Lookup(n, p).value.Folder? ==> Lookup(Folder(g), p).value.Folder?
      {
        if p != [] {
          assert [p[0]] + p[1..] == p;
          LookupFirst(f, p[0], p[1..]);
          LookupFirst(g, p[0], p[1..]);
          if p[0] == t {
            assert Lookup(c, p[1..]).Some?;
          } else {
            assert g.children[p[0]] == f.children[p[0]];
          }
        }
      }
    }
  }

  /** Inserting into a folder keeps all of it: a present name keeps its node. */
  lemma InsertGrows(f: Kfolder, k: string, v: Knode)
    ensures Grows(Folder(f), Folder(f.Insert(k, v).0))
  {
    var g := f.Insert(k, v).0;
    forall p | Lookup(Folder(f), p).Some?
      ensures p != [] ==> Lookup(Folder(g), p) == Lookup(Folder(f), p)
    {
      if p != [] {
        assert [p[0]] + p[1..] == p;
        LookupFirst(f, p[0], p[1..]);
        LookupFirst(g, p[0], p[1..]);
      }
    }
  }

  /**
   * `KfileSystem::mkdir` on a folder, as a value: for each segment in turn,
   * stop with an error naming it when it names a file; otherwise create an
   * empty folder under it when it names nothing, and go on in that child.
   * The returned tree keeps what was created before an error.
   */
  function MakeDirs(n: Knode, toks: seq<string>): (r: (Knode, Result<(), string>))
    requires n.Folder?
    ensures r.0.Folder?
    decreases |toks|
  {
    if toks == [] then (n, Ok(()))
    else
      var f, t := n.folder, toks[0];
      if t in f.children && f.children[t].File? then (n, Err("File '" + t + "' exists!"))
      else
        var child := if t in f.children then f.children[t] else Knode.NewKfolder();
        var (c, res) := MakeDirs(child, toks[1..]);
        (Folder(Kfolder(f.children[t := c])), res)
  }

  /** The first segment of a non-empty path, looked up in a folder. */
  lemma LookupFirst(f: Kfolder, t: string, rest: seq<string>)
    ensures Lookup(Folder(f), [t] + rest) ==
      if t in f.children then Lookup(f.children[t], rest) else None
  {
    assert ([t] + rest)[0] == t && ([t] + rest)[1..] == rest;
  }

  /** `mkdir` only adds to the tree: no node is removed or changes kind. */
  lemma {:induction false} MakeDirsGrows(n: Knode, toks: seq<string>)
    requires n.Folder?
    ensures Grows(n, MakeDirs(n, toks).0)
    decreases |toks|
  {
    if toks != [] {
      var f, t := n.folder, toks[0];
      if !(t in f.children && f.children[t].File?) {
        var child := if t in f.children then f.children[t] else Knode.NewKfolder();
        var c := MakeDirs(child, toks[1..]).0;
        MakeDirsGrows(child, toks[1..]);
        var g := f.children[t := c];
        forall p | Lookup(n, p).Some?
          ensures Lookup(Folder(Kfolder(g)), p).Some?
          ensures Lookup(n, p).value.File? ==> Lookup(Folder(Kfolder(g)), p) == Lookup(n, p)
          ensures Lookup(n, p).value.Folder? ==> Lookup(Folder(Kfolder(g)), p).value.Folder?
        {
          if p != [] {
            assert [p[0]] + p[1..] == p;
            LookupFirst(f, p[0], p[1..]);
            LookupFirst(Kfolder(g), p[0], p[1..]);
          }
        }
      }
    }
  }

  /**
   * `mkdir` touches nothing off its path: a path that is not a prefix of
   * `toks` names the same node, or nothing, before and after, whether
   * `mkdir` succeeds or stops at a file.
   */
  lemma {:induction false} MakeDirsFrame(n: Knode, toks: seq<string>, p: seq<string>)
    requires n.Folder? && !(p <= toks)
    ensures Lookup(MakeDirs(n, toks).0, p) == Lookup(n, p)
    decreases |toks|
  {
    if toks != [] {
      var f, t := n.folder, toks[0];
      if !(t in f.children && f.children[t].File?) {
        var child := if t in f.children then f.children[t] else Knode.NewKfolder();
        var g := Kfolder(f.children[t := MakeDirs(child, toks[1..]).0]);
        assert MakeDirs(n, toks).0 == Folder(g);
        assert p != [];
        assert [p[0]] + p[1..] == p;
        LookupFirst(f, p[0], p[1..]);
        LookupFirst(g, p[0], p[1..]);
        if p[0] == t {
          PrefixTail(p, toks);
          MakeDirsFrame(child, toks[1..], p[1..]);
          if t !in f.children {
            assert [p[1..][0]] + p[1..][1..] == p[1..];
            LookupFirst(Kfolder.New(), p[1..][0], p[1..][1..]);
          }
        }
      }
    }
  }

  /** Two paths that agree on their first segment are prefixes of each other as their tails are. */
  lemma PrefixTail(p: seq<string>, toks: seq<string>)
    requires p != [] && toks != [] && p[0] == toks[0] && !(p <= toks)
    ensures !(p[1..] <= toks[1..]) && p[1..] != []
  {
  }

  /** Every prefix of `toks`, from the empty one to `toks` itself, names a folder. */
  predicate AllFolders(n: Knode, toks: seq<string>)
  {
    forall i :: 0 <= i <= |toks| ==> IsFolderAt(n, toks[..i])
  }

  /** No non-empty prefix of `toks` names a file. */
  predicate NoFileOnPath(n: Knode, toks: seq<string>)
  {
    forall i :: 0 < i <= |toks| ==> !IsFileAt(n, toks[..i])
  }

  /** Prefixes of `[t] + rest` in a folder are `t` and the prefixes of `rest` in that child. */
  lemma PrefixLookup(f: Kfolder, toks: seq<string>, i: nat)
    requires 0 < i <= |toks| && toks[0] in f.children
    ensures Lookup(Folder(f), toks[..i]) == Lookup(f.children[toks[0]], toks[1..][..i - 1])
  {
    assert toks[..i] == [toks[0]] + toks[1..][..i - 1];
    LookupFirst(f, toks[0], toks[1..][..i - 1]);
  }

  /** `mkdir` succeeds exactly when no segment of the path names a file. */
  lemma {:induction false} MakeDirsOkIff(n: Knode, toks: seq<string>)
    requires n.Folder?
    ensures MakeDirs(n, toks).1.Ok? <==> NoFileOnPath(n, toks)
    decreases |toks|
  {
    if toks != [] {
      var f, t := n.folder, toks[0];
      if t in f.children && f.children[t].File? {
        PrefixLookup(f, toks, 1);
        assert toks[1..][..0] == [];
        assert IsFileAt(n, toks[..1]);
      } else {
        var child := if t in f.children then f.children[t] else Knode.NewKfolder();
        MakeDirsOkIff(child, toks[1..]);
        if t in f.children {
          forall i | 0 < i <= |toks| ensures IsFileAt(n, toks[..i]) <==> (i > 1 && IsFileAt(child, toks[1..][..i - 1])) {
            PrefixLookup(f, toks, i);
            if i == 1 {
              assert toks[1..][..0] == [];
            }
          }
          assert NoFileOnPath(n, toks) <==> NoFileOnPath(child, toks[1..]) by {
            if NoFileOnPath(n, toks) {
              forall j | 0 < j <= |toks[1..]| ensures !IsFileAt(child, toks[1..][..j]) {
                assert !IsFileAt(n, toks[..j + 1]);
              }
            }
          }
        } else {
          forall i | 0 < i <= |toks| ensures !IsFileAt(n, toks[..i]) {
            assert toks[..i] == [t] + toks[1..][..i - 1];
            LookupFirst(f, t, toks[1..][..i - 1]);
          }
          EmptyFolderNoFile(toks[1..]);
        }
      }
    }
  }

  /** Nothing below an empty folder is a file. */
  lemma EmptyFolderNoFile(toks: seq<string>)
    ensures NoFileOnPath(Knode.NewKfolder(), toks)
  {
    forall i | 0 < i <= |toks| ensures !IsFileAt(Knode.NewKfolder(), toks[..i]) {
      assert toks[..i] == [toks[..i][0]] + toks[..i][1..];
      LookupFirst(Kfolder.New(), toks[..i][0], toks[..i][1..]);
    }
  }

  /** After a successful `mkdir` every prefix of the path names a folder. */
  lemma {:induction false} MakeDirsBuildsPath(n: Knode, toks: seq<string>)
    requires n.Folder?
    requires MakeDirs(n, toks).1.Ok?
    ensures AllFolders(MakeDirs(n, toks).0, toks)
    decreases |toks|
  {
    var r := MakeDirs(n, toks).0;
    if toks == [] {
      assert toks[..0] == [];
    } else {
      var f, t := n.folder, toks[0];
      var child := if t in f.children then f.children[t] else Knode.NewKfolder();
      var c := MakeDirs(child, toks[1..]).0;
      MakeDirsBuildsPath(child, toks[1..]);
      var g := Kfolder(f.children[t := c]);
      assert r == Folder(g);
      forall i | 0 <= i <= |toks| ensures IsFolderAt(r, toks[..i]) {
        if i == 0 {
          assert toks[..0] == [];
        } else {
          PrefixLookup(g, toks, i);
          assert IsFolderAt(c, toks[1..][..i - 1]);
        }
      }
    }
  }

  /** On a path of folders `mkdir` succeeds and changes nothing. */
  lemma {:induction false} MakeDirsExisting(n: Knode, toks: seq<string>)
    requires n.Folder? && AllFolders(n, toks)
    ensures MakeDirs(n, toks) == (n, Ok(()))
    decreases |toks|
  {
    if toks != [] {
      var f, t := n.folder, toks[0];
      assert IsFolderAt(n, toks[..1]);
      assert toks[..1] == [t] + [];
      LookupFirst(f, t, []);
      var child := f.children[t];
      forall i | 0 <= i <= |toks[1..]| ensures IsFolderAt(child, toks[1..][..i]) {
        PrefixLookup(f, toks, i + 1);
        assert IsFolderAt(n, toks[..i + 1]);
      }
      MakeDirsExisting(child, toks[1..]);
      assert f.children[t := child] == f.children;
    }
  }

  /** Running `mkdir` a second time on the same path changes nothing. */
  lemma MakeDirsIdempotent(n: Knode, toks: seq<string>)
    requires n.Folder? && MakeDirs(n, toks).1.Ok?
    ensures MakeDirs(MakeDirs(n, toks).0, toks) == (MakeDirs(n, toks).0, Ok(()))
  {
    MakeDirsBuildsPath(n, toks);
    MakeDirsExisting(MakeDirs(n, toks).0, toks);
  }

  /**
   * At the first segment that names a file, `mkdir` stops with an error
   * naming that segment. The file is left as it was, and the folders
   * created for the segments before it stay: there is no rollback.
   */
  lemma {:induction false} MakeDirsConflict(n: Knode, toks: seq<string>, i: nat)
    requires n.Folder?
    requires 0 < i <= |toks| && IsFileAt(n, toks[..i])
    requires forall j :: 0 < j < i ==> !IsFileAt(n, toks[..j])
    ensures MakeDirs(n, toks).1 == Err("File '" + toks[i - 1] + "' exists!")
    ensures Lookup(MakeDirs(n, toks).0, toks[..i]) == Lookup(n, toks[..i])
    ensures forall j :: 0 <= j < i ==> IsFolderAt(MakeDirs(n, toks).0, toks[..j])
    decreases |toks|
  {
    var r := MakeDirs(n, toks).0;
    var f, t := n.folder, toks[0];
    if i == 1 {
      PrefixLookup(f, toks, 1);
      assert toks[1..][..0] == [];
      assert toks[..0] == [];
    } else {
      PrefixLookup(f, toks, 1);
      assert toks[1..][..0] == [];
      assert !IsFileAt(n, toks[..1]);
      var child := if t in f.children then f.children[t] else Knode.NewKfolder();
      forall j | 0 < j < i - 1 ensures !IsFileAt(child, toks[1..][..j]) {
        PrefixLookup(f, toks, j + 1);
        assert !IsFileAt(n, toks[..j + 1]);
      }
      PrefixLookup(f, toks, i);
      MakeDirsConflict(child, toks[1..], i - 1);
      var c := MakeDirs(child, toks[1..]).0;
      var g := Kfolder(f.children[t := c]);
      assert r == Folder(g);
      PrefixLookup(g, toks, i);
      forall j | 0 <= j < i ensures IsFolderAt(r, toks[..j]) {
        if j == 0 {
          assert toks[..0] == [];
        } else {
          PrefixLookup(g, toks, j);
          assert IsFolderAt(c, toks[1..][..j - 1]);
        }
      }
    }
  }

  /**
   * `mkdir` run from the folder at `cur` on the segments `rest`, with the
   * result put back at `cur`: the state of the loop in `KfileSystem::mkdir`
   * whose cursor stands at `cur` with `rest` still to walk.
   */
  function MakeDirsAt(n: Knode, cur: seq<string>, rest: seq<string>): (r: (Knode, Result<(), string>))
    requires IsFolderAt(n, cur)
  {
    var r := MakeDirs(Lookup(n, cur).value, rest);
    (Graft(n, cur, r.0), r.1)
  }

  /** With nothing left to walk, the tree is as the loop leaves it. */
  lemma MakeDirsAtDone(n: Knode, cur: seq<string>)
    requires IsFolderAt(n, cur)
    ensures MakeDirsAt(n, cur, []) == (n, Ok(()))
  {
    GraftSelf(n, cur);
  }

  /** A segment that names a file stops the walk with the tree as it stands. */
  lemma MakeDirsAtConflict(n: Knode, cur: seq<string>, toks: seq<string>)
    requires IsFolderAt(n, cur) && toks != []
    requires var v := Lookup(n, cur).value.folder; toks[0] in v.children && v.children[toks[0]].File?
    ensures MakeDirsAt(n, cur, toks) == (n, Err("File '" + toks[0] + "' exists!"))
  {
    GraftSelf(n, cur);
  }

  /**
   * One turn of the loop: create the folder `t` at the cursor when it is
   * missing, then move the cursor into it. The walk still ends the same.
   */
  lemma MakeDirsAtStep(n: Knode, cur: seq<string>, toks: seq<string>, n': Knode)
    requires IsFolderAt(n, cur) && toks != []
    requires var v := Lookup(n, cur).value.folder; !(toks[0] in v.children && v.children[toks[0]].File?)
    requires var v := Lookup(n, cur).value.folder;
      n' == if toks[0] in v.children then n else Graft(n, cur, Folder(Kfolder(v.children[toks[0] := Knode.NewKfolder()])))
    ensures IsFolderAt(n', cur + [toks[0]])
    ensures MakeDirsAt(n', cur + [toks[0]], toks[1..]) == MakeDirsAt(n, cur, toks)
  {
    var t, rest := toks[0], toks[1..];
    assert toks == [t] + rest;
    var v := Lookup(n, cur).value.folder;
    if t !in v.children {
      MakeDirsAtCreate(n, cur, t, rest);
    }
    MakeDirsAtInto(n', cur, t, rest);
  }

  /** Creating the missing folder `t` at the cursor first does not change how the walk ends. */
  lemma MakeDirsAtCreate(n: Knode, cur: seq<string>, t: string, rest: seq<string>)
    requires IsFolderAt(n, cur)
    requires t !in Lookup(n, cur).value.folder.children
    ensures var v' := Kfolder(Lookup(n, cur).value.folder.children[t := Knode.NewKfolder()]);
      var n' := Graft(n, cur, Folder(v'));
      && Lookup(n', cur) == Some(Folder(v'))
      && MakeDirsAt(n', cur, [t] + rest) == MakeDirsAt(n, cur, [t] + rest)
  {
    var v := Lookup(n, cur).value.folder;
    var v' := Kfolder(v.children[t := Knode.NewKfolder()]);
    var n' := Graft(n, cur, Folder(v'));
    GraftLookup(n, cur, Folder(v'));
    var r := MakeDirs(Knode.NewKfolder(), rest);
    MakeDirsFirst(v, t, rest);
    MakeDirsFirst(v', t, rest);
    assert v'.children[t := r.0] == v.children[t := r.0];
    GraftGraft(n, cur, Folder(v'), [], Folder(Kfolder(v.children[t := r.0])));
    assert cur + [] == cur;
  }

  /** Moving the cursor into the existing folder `t` does not change how the walk ends. */
  lemma MakeDirsAtInto(n: Knode, cur: seq<string>, t: string, rest: seq<string>)
    requires IsFolderAt(n, cur)
    requires var v := Lookup(n, cur).value.folder; t in v.children && v.children[t].Folder?
    ensures IsFolderAt(n, cur + [t])
    ensures MakeDirsAt(n, cur + [t], rest) == MakeDirsAt(n, cur, [t] + rest)
  {
    var v := Lookup(n, cur).value.folder;
    var child := v.children[t];
    LookupAppend(n, cur, [t]);
    LookupFirst(v, t, []);
    assert [t] + [] == [t];
    var r := MakeDirs(child, rest);
    MakeDirsFirst(v, t, rest);
    GraftSelf(n, cur);
    GraftGraft(n, cur, Folder(v), [t], r.0);
  }

  /** `mkdir` in a folder whose first segment is not a file: recurse into that child. */
  lemma MakeDirsFirst(v: Kfolder, t: string, rest: seq<string>)
    requires !(t in v.children && v.children[t].File?)
    ensures var child := if t in v.children then v.children[t] else Knode.NewKfolder();
      var r := MakeDirs(child, rest);
      MakeDirs(Folder(v), [t] + rest) == (Folder(Kfolder(v.children[t := r.0])), r.1)
  {
    assert ([t] + rest)[0] == t && ([t] + rest)[1..] == rest;
  }

}
