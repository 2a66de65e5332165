/**
 * The node tree of src/node.rs: a node is a folder, which owns a map from
 * child name to child node, or a file, which holds text. A folder owns its
 * children by value, so the tree is a value and has no sharing or cycles.
 */
module Node {
  import opened Wrappers
  import opened Text
  import opened Order

  datatype Knode = Folder(folder: Kfolder) | File(file: Kfile)
  {
    /** `Knode::new_kfolder`: a folder node with no children. */
    static function NewKfolder(): (r: Knode)
      ensures r.Folder? && r.folder.children == map[]
      ensures r.AsKfolder() == Some(Kfolder.New())
    {
      Folder(Kfolder.New())
    }

    /** `Knode::new_kfile`: a file node with empty text. */
    static function NewKfile(): (r: Knode)
      ensures r.File? && r.file.text == ""
      ensures r.AsKfile() == Some(Kfile.New())
    {
      File(Kfile.New())
    }

    /**
     * `Knode::is_kfolder` as written: the pattern `Kfolder` in its first arm
     * is a fresh binding, not the variant, so the arm matches every node and
     * the answer is always true, files included.
     */
    function IsKfolder(): (r: bool)
      ensures r
    {
      true
    }

    /** `Knode::is_kfile` as written: true for every node, folders included. */
    function IsKfile(): (r: bool)
      ensures r
    {
      true
    }

    /** `Knode::as_kfolder`: the folder inside a folder node, nothing for a file. */
    function AsKfolder(): (r: Option<Kfolder>)
      ensures r.Some? <==> Folder?
      ensures r.Some? ==> Folder(r.value) == this
    {
      match this
      case Folder(f) => Some(f)
      case _ => None
    }

    /** `Knode::as_kfile`: the file inside a file node, nothing for a folder. */
    function AsKfile(): (r: Option<Kfile>)
      ensures r.Some? <==> File?
      ensures r.Some? ==> File(r.value) == this
    {
      match this
      case File(f) => Some(f)
      case _ => None
    }
  }

  datatype Kfile = Kfile(text: string)
  {
    /** `Kfile::new`. */
    static function New(): (r: Kfile)
      ensures |r.text| == 0
    {
      Kfile("")
    }
  }

  datatype Kfolder = Kfolder(children: map<string, Knode>)
  {
    /** `Kfolder::new`: no children (so it lists as the empty string, NewLsEmpty). */
    static function New(): (r: Kfolder)
      ensures |r.children| == 0
    {
      Kfolder(map[])
    }

    /**
     * `Kfolder::ls`: the child names, sorted ascending and joined with single
     * spaces. That listing is the only one (LsIsSortedListing), so the answer
     * does not depend on the order in which names were inserted.
     */
    function Ls(): (r: string)
      ensures exists ks :: IsSortedListing(ks, children.Keys) && r == Join(ks, ' ')
    {
      Join(SortedKeys(children.Keys), ' ')
    }

    /**
     * `Kfolder::insert`: insert-if-absent. The flag says whether `k` was
     * absent; a present key keeps its node, even when `v` is of the other
     * variant.
     */
    function Insert(k: string, v: Knode): (r: (Kfolder, bool))
      ensures r.1 <==> k !in children
      ensures r.0.children.Keys == children.Keys + {k}
      ensures r.0.children[k] == if r.1 then v else children[k]
      ensures forall k' :: k' in children ==> r.0.children[k'] == children[k']
    {
      var ans := k in children;
      if !ans then (Kfolder(children[k := v]), true) else (this, false)
    }
  }

  /** Any strictly ascending listing of a folder's names, space-joined, is its `ls`. */
  lemma LsIsSortedListing(f: Kfolder, ks: seq<string>)
    requires IsSortedListing(ks, f.children.Keys)
    ensures f.Ls() == Join(ks, ' ')
  {
    SortedListingUnique(ks, SortedKeys(f.children.Keys), f.children.Keys);
  }

  /** An empty folder lists as the empty string. */
  lemma NewLsEmpty()
    ensures Kfolder.New().Ls() == ""
  {
    assert Kfolder.New().children.Keys == {};
  }

  /** Two folders with the same names list the same, whatever their children hold. */
  lemma LsDependsOnlyOnNames(f: Kfolder, g: Kfolder)
    requires f.children.Keys == g.children.Keys
    ensures f.Ls() == g.Ls()
  {
  }

  /** A second insert of a present key answers false and changes nothing. */
  lemma InsertTwice(f: Kfolder, k: string, v: Knode, w: Knode)
    ensures var g := f.Insert(k, v).0;
      g.Insert(k, w) == (g, false)
  {
  }

  /**
   * The inserts of node.rs's tests, for any three distinct names: the first
   * insert of each name answers true, a repeated one false whatever node it
   * brings, and the first node stays.
   */
  lemma InsertScenario(a: string, b: string, c: string)
    requires a != b && b != c && a != c
    ensures var d, e := Knode.NewKfolder(), Knode.NewKfile();
      var r1 := Kfolder.New().Insert(a, d);
      var r2 := r1.0.Insert(b, d);
      var r3 := r2.0.Insert(b, d);
      var r4 := r3.0.Insert(b, e);
      var r5 := r4.0.Insert(c, e);
      && r1.1 && r2.1 && !r3.1 && !r4.1 && r5.1
      && r5.0.children.Keys == {a, b, c}
      && r5.0.children[b] == d
  {
    var d, e := Knode.NewKfolder(), Knode.NewKfile();
    var r1 := Kfolder.New().Insert(a, d);
    assert r1.0.children.Keys == {a};
    var r2 := r1.0.Insert(b, d);
    assert r2.0.children.Keys == {a, b} && r2.0.children[b] == d;
    var r3 := r2.0.Insert(b, d);
    var r4 := r3.0.Insert(b, e);
    assert r4.0 == r2.0;
    var r5 := r4.0.Insert(c, e);
  }

  /** `test_insert` and `test_ls`: the names "bau", "zio", "miao", listed as "bau miao zio". */
  lemma InsertLsScenario()
    ensures var d, e := Knode.NewKfolder(), Knode.NewKfile();
      var r1 := Kfolder.New().Insert("bau", d);
      var r2 := r1.0.Insert("zio", d);
      var r3 := r2.0.Insert("zio", d);
      var r4 := r3.0.Insert("zio", e);
      var r5 := r4.0.Insert("miao", e);
      && r1.1 && r2.1 && !r3.1 && !r4.1 && r5.1
      && r5.0.Ls() == "bau miao zio"
  {
    InsertScenario("bau", "zio", "miao");
    var d, e := Knode.NewKfolder(), Knode.NewKfile();
    var f := Kfolder.New().Insert("bau", d).0.Insert("zio", d).0.Insert("zio", d).0.Insert("zio", e).0.Insert("miao", e).0;
    LsScenario(f);
  }

  /** A folder holding the names "bau", "zio" and "miao" lists as "bau miao zio". */
  lemma LsScenario(f: Kfolder)
    requires f.children.Keys == {"bau", "zio", "miao"}
    ensures f.Ls() == "bau miao zio"
  {
    var ks := ["bau", "miao", "zio"];
    ScenarioListing(ks, f.children.Keys);
    LsIsSortedListing(f, ks);
    ScenarioJoin(ks, "bau miao zio");
  }

  lemma ScenarioListing(ks: seq<string>, keys: set<string>)
    requires ks == ["bau", "miao", "zio"]
    requires keys == {"bau", "zio", "miao"}
    ensures IsSortedListing(ks, keys)
  {
    assert Less(ks[0], ks[1]) && Less(ks[1], ks[2]) && Less(ks[0], ks[2]);
  }

  lemma ScenarioJoin(ks: seq<string>, s: string)
    requires ks == ["bau", "miao", "zio"]
    requires s == "bau miao zio"
    ensures Join(ks, ' ') == s
  {
    assert ks[1..] == ["miao", "zio"] && ks[2..] == ["zio"];
    assert Join(ks[1..], ' ') == "miao" + " " + "zio";
  }

}
