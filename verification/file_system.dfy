/**
 * The session of src/file_system.rs: `KfileSystem { root, pwd }`, a tree of
 * nodes and the working path as the string `cd` stored. Every operation
 * first turns its argument into canonical segments with `to_abs_path` and
 * `sanitize`, then walks the tree from the root.
 *
 * `mkdir` changes the tree in place through a `&mut` cursor; here the
 * cursor is the path from the root to the folder it points at, and an
 * insert under the cursor replaces the folder at that path in `root`.
 */
module FileSystem {
  import opened Wrappers
  import opened Text
  import opened Paths
  import opened Node
  import opened Tree

  class KfileSystem {
    var root: Knode
    var pwd: string

    /**
     * What the session keeps true: the root is a folder, the stored working
     * path has no whitespace (arguments come from `tokenize`, which splits on
     * whitespace), and with no argument the working path names a node, which
     * `cd` may have made a file.
     */
    ghost predicate Valid()
      reads this
    {
      && root.Folder?
      && NoWhitespace(pwd)
      && Lookup(root, Resolve("")).Some?
    }

    /** The segments an argument names: `sanitize(to_abs_path(s))`. */
    function Resolve(s: string): seq<string>
      reads this`pwd
    {
      Canonical(ToAbsPath(s, pwd))
    }

    /** `sanitize(&self.to_abs_path(s))`, the first step of every operation. */
    method ResolvePath(s: string) returns (toks: seq<string>)
      ensures toks == Resolve(s)
    {
      toks := Sanitize(ToAbsPath(s, pwd));
    }

    /** `KfileSystem::new`: an empty root folder and the empty working path. */
    constructor()
      ensures root == Knode.NewKfolder() && pwd == ""
      ensures Valid()
    {
      root := Knode.NewKfolder();
      pwd := "";
      new;
      ToAbsPathRoot(pwd);
    }

    /**
     * `KfileSystem::get`: walk the canonical segments from the root, each
     * step into a child of a folder; a missing child or a file on the way
     * gives nothing.
     */
    method Get(s: string) returns (r: Option<Knode>)
      ensures r == Lookup(root, Resolve(s))
    {
      var toks := ResolvePath(s);
      var ans := Some(root);
      while toks != []
        invariant Lookup(root, Resolve(s)) == if ans.None? then None else Lookup(ans.value, toks)
        decreases |toks|
      {
        var token := toks[0];
        if ans.Some? && ans.value.Folder? {
          var v := ans.value.folder;
          ans := if token in v.children then Some(v.children[token]) else None;
        } else {
          return None;
        }
        toks := toks[1..];
      }
      r := ans;
    }

    /**
     * `KfileSystem::get_mut`: the same walk, giving the place of the node
     * (its path from the root) through which a caller can change it.
     */
    method GetMut(s: string) returns (r: Option<seq<string>>)
      ensures r.Some? <==> Lookup(root, Resolve(s)).Some?
      ensures r.Some? ==> r.value == Resolve(s)
    {
      var toks := ResolvePath(s);
      ghost var all := toks;
      var place: seq<string> := [];
      var ans := Some(root);
      assert place + toks == toks;
      assert Lookup(root, place) == ans;
      while toks != []
        invariant place + toks == all
        invariant ans == Lookup(root, place)
        decreases |toks|
      {
        var token := toks[0];
        if ans.Some? && ans.value.Folder? {
          var v := ans.value.folder;
          StepInto(root, place, v, token);
          ans := if token in v.children then Some(v.children[token]) else None;
        } else {
          WalkStopped(root, place, toks);
          return None;
        }
        PopFront(place, toks, all);
        place := place + [token];
        toks := toks[1..];
      }
      assert place == all;
      if ans.Some? {
        r := Some(place);
      } else {
        r := None;
      }
    }

    /**
     * `Kfolder::insert` on the folder at `place`, as `get_mut` hands it out:
     * the folder is changed where it stands in the tree, and the answer says
     * whether `k` was absent.
     */
    method InsertAt(place: seq<string>, k: string, v: Knode) returns (added: bool)
      requires IsFolderAt(root, place)
      modifies this
      ensures var f := Lookup(old(root), place).value.folder;
        && added == (k !in f.children)
        && root == Graft(old(root), place, Folder(f.Insert(k, v).0))
      ensures pwd == old(pwd)
      ensures old(Valid()) ==> Valid()
    {
      var f := Lookup(root, place).value.folder;
      var g;
      g, added := f.Insert(k, v).0, f.Insert(k, v).1;
      ghost var root0 := root;
      root := Graft(root, place, Folder(g));
      InsertGrows(f, k, v);
      GraftGrows(root0, place, Folder(g));
    }

    /** `KfileSystem::pwd`: never fails; "/" and then the stored string, whatever it is. */
    function Pwd(): (r: Result<string, string>)
      reads this
      ensures r.Ok? && |r.value| == |pwd| + 1 && r.value[0] == '/' && r.value[1..] == pwd
    {
      Ok("/" + pwd)
    }

    /**
     * `KfileSystem::ls`: the listing of the folder the argument (the working
     * path when there is none) names. On anything else the source panics,
     * so that is excluded here.
     */
    method Ls(args: seq<string>) returns (r: Result<string, string>)
      requires IsFolderAt(root, Resolve(if |args| >= 2 then args[1] else ""))
      ensures r.Ok?
      ensures r.value == Lookup(root, Resolve(if |args| >= 2 then args[1] else "")).value.folder.Ls()
    {
      var s := if |args| >= 2 then args[1] else "";
      var node := Get(s);
      r := Ok(node.value.folder.Ls());
    }

    /**
     * `KfileSystem::mkdir` (`mkdir -p`): walk the canonical segments of
     * `args[1]` with a cursor that starts at the root, creating each missing
     * folder under the cursor and stopping at the first segment that names a
     * file. The tree and the answer are those of MakeDirs.
     */
    method Mkdir(args: seq<string>) returns (r: Result<(), string>)
      requires |args| >= 2 && root.Folder?
      modifies this
      ensures (root, r) == MakeDirs(old(root), old(Resolve(args[1])))
      ensures pwd == old(pwd)
      ensures old(Valid()) ==> Valid()
    {
      var toks := ResolvePath(args[1]);
      ghost var root0, all := root, toks;
      var cur: seq<string> := [];
      assert Lookup(root, cur) == Some(root);
      while toks != []
        invariant IsFolderAt(root, cur)
        invariant MakeDirsAt(root, cur, toks) == MakeDirs(root0, all)
        modifies this`root
        decreases |toks|
      {
        var token := toks[0];
        var v := Lookup(root, cur).value.folder;
        if token in v.children && v.children[token].File? {
          MakeDirsAtConflict(root, cur, toks);
          r := Err("File '" + token + "' exists!");
          MkdirKeepsCwd(root0, all);
          return;
        }
        ghost var before := root;
        if token !in v.children {
          root := Graft(root, cur, Folder(Kfolder(v.children[token := Knode.NewKfolder()])));
        }
        MakeDirsAtStep(before, cur, toks, root);
        cur := cur + [token];
        toks := toks[1..];
      }
      MakeDirsAtDone(root, cur);
      r := Ok(());
      assert (root, r) == MakeDirs(root0, all);
      MkdirKeepsCwd(root0, all);
    }

    /**
     * `KfileSystem::cd`: with no argument clear the working path; with one
     * that names a node, folder or file, store `to_abs_path` of it; otherwise
     * report it and change nothing. An absolute argument is stored as it is.
     */
    method Cd(args: seq<string>) returns (r: Result<(), string>)
      requires |args| >= 1
      modifies this
      ensures root == old(root)
      ensures |args| == 1 ==> r == Ok(()) && pwd == ""
      ensures |args| >= 2 && Lookup(root, old(Resolve(args[1]))).Some? ==>
        r == Ok(()) && pwd == ToAbsPath(args[1], old(pwd))
      ensures |args| >= 2 && Lookup(root, old(Resolve(args[1]))).None? ==>
        r == Err("cd: '" + args[1] + "': No such file or directory") && pwd == old(pwd)
      ensures old(Valid()) && (|args| >= 2 ==> NoWhitespace(args[1])) ==> Valid()
    {
      if |args| == 1 {
        pwd := "";
        ToAbsPathRoot(pwd);
        return Ok(());
      }
      var node := Get(args[1]);
      if node.Some? {
        if NoWhitespace(args[1]) && NoWhitespace(pwd) {
          ToAbsPathStable(args[1], pwd);
          ToAbsPathNoWhitespace(args[1], pwd);
        }
        pwd := ToAbsPath(args[1], pwd);
        r := Ok(());
      } else {
        r := Err("cd: '" + args[1] + "': No such file or directory");
      }
    }

    /** After `mkdir` the working path still names a node: the tree only grew. */
    lemma MkdirKeepsCwd(root0: Knode, all: seq<string>)
      requires root0.Folder?
      requires root == MakeDirs(root0, all).0
      ensures Lookup(root0, Resolve("")).Some? ==> Lookup(root, Resolve("")).Some?
    {
      MakeDirsGrows(root0, all);
    }
  }

  /** Moving the first segment still to walk to the end of the walked ones. */
  lemma PopFront(place: seq<string>, toks: seq<string>, all: seq<string>)
    requires toks != [] && place + toks == all
    ensures (place + [toks[0]]) + toks[1..] == all
  {
    assert toks == [toks[0]] + toks[1..];
  }

}
