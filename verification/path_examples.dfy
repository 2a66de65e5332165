/**
 * The canonicaliser on the concrete strings of file_system.rs's tests, and
 * the one input class on which re-canonicalising a `sanitize_str` result is
 * not the identity. Each test string is first shown to split into its
 * segments (by joining the segments back, a few at a time); the canonical
 * form then follows from the segment lemmas of the Paths module.
 */
module PathExamples {
  import opened Text
  import opened Paths

  lemma Join2(a: string, b: string)
    ensures Join([a, b], '/') == a + "/" + b
  {
    assert [a, b][1..] == [b];
  }

  lemma Join3(a: string, b: string, c: string)
    ensures Join([a, b, c], '/') == a + "/" + b + "/" + c
  {
    assert [a, b, c][1..] == [b, c];
    Join2(b, c);
  }

  lemma Join4(a: string, b: string, c: string, d: string)
    ensures Join([a, b, c, d], '/') == a + "/" + b + "/" + c + "/" + d
  {
    assert [a, b, c, d][1..] == [b, c, d];
    Join3(b, c, d);
  }

  /** No segment holds a '/'. */
  predicate SlashFree(parts: seq<string>)
  {
    forall i :: 0 <= i < |parts| ==> '/' !in parts[i]
  }

  lemma SlashFreeAppend(a: seq<string>, b: seq<string>)
    requires SlashFree(a) && SlashFree(b)
    ensures SlashFree(a + b)
  {
    assert forall i :: |a| <= i < |a + b| ==> (a + b)[i] == b[i - |a|];
  }

  /** A string with trimmed edges that is the join of `parts` splits back into them. */
  lemma SplitOfJoin(s: string, parts: seq<string>)
    requires |parts| >= 1 && SlashFree(parts)
    requires Join(parts, '/') == s && TrimmedEdges(s)
    ensures Split(Trim(s), '/') == parts
  {
    JoinThenSplit(parts, '/');
  }

  /** `test_sanitize`, first assertion: everything before "miao" cancels out. */
  lemma SanitizeMiao(s: string)
    requires s == "/../../pera/aieie/../asa/../.././miao"
    ensures Canonical(s) == ["miao"]
  {
    MiaoSplit(s);
    MiaoCancel(["", "..", "..", "pera", "aieie", "..", "asa", "..", "..", ".", "miao"]);
  }

  /** "pera" and "aieie" are cancelled by the ".." after them; the two before them are surplus. */
  lemma MiaoFirstHalf(p: seq<string>)
    requires p == ["", "..", "..", "pera", "aieie"]
    ensures CancelBackward(p, 2) == []
  {
    var p2 := ["", "..", ".."];
    assert CancelBackward(p2, 0) == [] by {
      CancelBackwardNoSurvivors(p2, 0);
    }
    CancelBackwardSnoc(p2, "pera", 1, 0);
    var p3 := p2 + ["pera"];
    CancelBackwardSnoc(p3, "aieie", 2, 1);
    assert p3 + ["aieie"] == p;
  }

  lemma MiaoCancel(p: seq<string>)
    requires p == ["", "..", "..", "pera", "aieie", "..", "asa", "..", "..", ".", "miao"]
    ensures CancelBackward(p, 0) == ["miao"]
  {
    var p5 := ["", "..", "..", "pera", "aieie"];
    MiaoFirstHalf(p5);
    CancelBackwardSnoc(p5, "..", 1, 2);
    var p6 := p5 + [".."];
    CancelBackwardSnoc(p6, "asa", 2, 1);
    var p7 := p6 + ["asa"];
    CancelBackwardSnoc(p7, "..", 1, 2);
    var p8 := p7 + [".."];
    CancelBackwardSnoc(p8, "..", 0, 1);
    var p9 := p8 + [".."];
    CancelBackwardSnoc(p9, ".", 0, 0);
    var p10 := p9 + ["."];
    CancelBackwardKeep(p10, "miao");
    assert CancelBackward(p10, 0) == [];
    assert p10 + ["miao"] == p;
  }

  lemma MiaoSplit(s: string)
    requires s == "/../../pera/aieie/../asa/../.././miao"
    ensures Split(Trim(s), '/') == ["", "..", "..", "pera", "aieie", "..", "asa", "..", "..", ".", "miao"]
  {
    var p := ["", "..", "..", "pera", "aieie", "..", "asa", "..", "..", ".", "miao"];
    MiaoJoin(p, s);
    MiaoSlashFree(p);
    MiaoEdges(s);
    SplitOfJoin(s, p);
  }

  lemma MiaoEdges(s: string)
    requires s == "/../../pera/aieie/../asa/../.././miao"
    ensures TrimmedEdges(s)
  {
    assert s[0] == '/' && s[|s| - 1] == 'o';
  }

  lemma MiaoJoin(p: seq<string>, s: string)
    requires p == ["", "..", "..", "pera", "aieie", "..", "asa", "..", "..", ".", "miao"]
    requires s == "/../../pera/aieie/../asa/../.././miao"
    ensures Join(p, '/') == s
  {
    var p1, p2, p3 := ["", "..", "..", "pera"], ["aieie", "..", "asa", ".."], ["..", ".", "miao"];
    assert p == p1 + p2 + p3;
    JoinAppend(p1 + p2, p3, '/');
    JoinAppend(p1, p2, '/');
    MiaoJoinPiece1(p1, "/../../pera");
    MiaoJoinPiece2(p2, "aieie/../asa/..");
    MiaoJoinPiece3(p3, ".././miao");
    MiaoJoinText("/../../pera", "aieie/../asa/..", ".././miao", s);
  }

  lemma MiaoSlashFree(p: seq<string>)
    requires p == ["", "..", "..", "pera", "aieie", "..", "asa", "..", "..", ".", "miao"]
    ensures SlashFree(p)
  {
    var p1, p2, p3 := ["", "..", "..", "pera"], ["aieie", "..", "asa", ".."], ["..", ".", "miao"];
    assert p == p1 + p2 + p3;
    SlashFree1(p1);
    SlashFree2(p2);
    SlashFree3(p3);
    SlashFreeAppend(p1, p2);
    SlashFreeAppend(p1 + p2, p3);
  }

  lemma SlashFree1(p: seq<string>)
    requires p == ["", "..", "..", "pera"]
    ensures SlashFree(p)
  {
  }

  lemma SlashFree2(p: seq<string>)
    requires p == ["aieie", "..", "asa", ".."]
    ensures SlashFree(p)
  {
  }

  lemma SlashFree3(p: seq<string>)
    requires p == ["..", ".", "miao"]
    ensures SlashFree(p)
  {
  }

  lemma MiaoJoinPiece1(p: seq<string>, s: string)
    requires p == ["", "..", "..", "pera"]
    requires s == "/../../pera"
    ensures Join(p, '/') == s
  {
    Join4(p[0], p[1], p[2], p[3]);
  }

  lemma MiaoJoinPiece2(p: seq<string>, s: string)
    requires p == ["aieie", "..", "asa", ".."]
    requires s == "aieie/../asa/.."
    ensures Join(p, '/') == s
  {
    Join4(p[0], p[1], p[2], p[3]);
  }

  lemma MiaoJoinPiece3(p: seq<string>, s: string)
    requires p == ["..", ".", "miao"]
    requires s == ".././miao"
    ensures Join(p, '/') == s
  {
    Join3(p[0], p[1], p[2]);
  }

  lemma MiaoJoinText(a1: string, a2: string, a3: string, s: string)
    requires a1 == "/../../pera" && a2 == "aieie/../asa/.." && a3 == ".././miao"
    requires s == "/../../pera/aieie/../asa/../.././miao"
    ensures s == a1 + "/" + a2 + "/" + a3
  {
  }

  /** `test_sanitize`, the other assertions: each of these paths names the root. */
  lemma SanitizeRootEmpty(s: string)
    requires s == ""
    ensures Canonical(s) == []
  {
    CanonicalOfBlank(s);
  }

  lemma SanitizeRootDot(s: string)
    requires s == "."
    ensures Canonical(s) == []
  {
    DotSplit(s);
    DotCancel(["."]);
  }

  lemma SanitizeRootUp(s: string)
    requires s == ".."
    ensures Canonical(s) == []
  {
    UpSplit(s);
    UpCancel([".."]);
  }

  lemma SanitizeRootDotDot(s: string)
    requires s == "./."
    ensures Canonical(s) == []
  {
    DotDotSplit(s);
    DotDotCancel([".", "."]);
  }

  lemma SanitizeRootUpUpUp(s: string)
    requires s == "../../.."
    ensures Canonical(s) == []
  {
    UpUpUpSplit(s);
    UpUpUpCancel(["..", "..", ".."]);
  }

  lemma SanitizeRootDotUpDotUp(s: string)
    requires s == "./.././.."
    ensures Canonical(s) == []
  {
    DotUpDotUpSplit(s);
    DotUpDotUpCancel([".", "..", ".", ".."]);
  }

  /**
   * Segments that are all empty, "." or ".." name the root: nothing
   * survives, however many ".." there are.
   */
  lemma NothingSurvives(p: seq<string>)
    requires forall i :: 0 <= i < |p| ==> p[i] == "." || p[i] == ".."
    ensures CancelBackward(p, 0) == []
  {
    CancelBackwardNoSurvivors(p, 0);
  }

  lemma DotCancel(p: seq<string>)
    requires p == ["."]
    ensures CancelBackward(p, 0) == []
  {
    NothingSurvives(p);
  }

  lemma UpCancel(p: seq<string>)
    requires p == [".."]
    ensures CancelBackward(p, 0) == []
  {
    NothingSurvives(p);
  }

  lemma DotDotCancel(p: seq<string>)
    requires p == [".", "."]
    ensures CancelBackward(p, 0) == []
  {
    NothingSurvives(p);
  }

  lemma UpUpUpCancel(p: seq<string>)
    requires p == ["..", "..", ".."]
    ensures CancelBackward(p, 0) == []
  {
    NothingSurvives(p);
  }

  lemma DotUpDotUpCancel(p: seq<string>)
    requires p == [".", "..", ".", ".."]
    ensures CancelBackward(p, 0) == []
  {
    NothingSurvives(p);
  }

  lemma DotSplit(s: string)
    requires s == "."
    ensures Split(Trim(s), '/') == ["."]
  {
    SplitOfJoin(s, ["."]);
  }

  lemma UpSplit(s: string)
    requires s == ".."
    ensures Split(Trim(s), '/') == [".."]
  {
    SplitOfJoin(s, [".."]);
  }

  lemma DotDotSplit(s: string)
    requires s == "./."
    ensures Split(Trim(s), '/') == [".", "."]
  {
    var p := [".", "."];
    Join2(p[0], p[1]);
    SplitOfJoin(s, p);
  }

  lemma UpUpUpSplit(s: string)
    requires s == "../../.."
    ensures Split(Trim(s), '/') == ["..", "..", ".."]
  {
    var p := ["..", "..", ".."];
    Join3(p[0], p[1], p[2]);
    SplitOfJoin(s, p);
  }

  lemma DotUpDotUpSplit(s: string)
    requires s == "./.././.."
    ensures Split(Trim(s), '/') == [".", "..", ".", ".."]
  {
    var p := [".", "..", ".", ".."];
    Join4(p[0], p[1], p[2], p[3]);
    SplitOfJoin(s, p);
  }

  /**
   * `test_to_abs_path` at file_system.rs line 224 expects "/miao/bau/one/two";
   * the code gives the same path without its leading '/'.
   */
  lemma ToAbsPathLine224(s: string, pwd: string)
    requires s == "one/two" && pwd == "/miao/bau"
    ensures ToAbsPath(s, pwd) == "miao/bau/one/two"
  {
    var t := "/" + pwd + "/" + s;
    Line224Text(pwd, s, t);
    Line224Canonical(t);
    Line224Rejoin(["miao", "bau", "one", "two"], "miao/bau/one/two");
  }

  lemma Line224Canonical(t: string)
    requires t == "//miao/bau/one/two"
    ensures Canonical(t) == ["miao", "bau", "one", "two"]
  {
    Line224Split(t);
    Line224Cancel(["", "", "miao", "bau", "one", "two"]);
  }

  lemma Line224Cancel(p: seq<string>)
    requires p == ["", "", "miao", "bau", "one", "two"]
    ensures CancelBackward(p, 0) == ["miao", "bau", "one", "two"]
  {
    var c := ["miao", "bau", "one", "two"];
    assert p == ["", ""] + c;
    CancelBackwardAfterNoSurvivors(["", ""], c);
  }

  lemma Line224Text(pwd: string, s: string, t: string)
    requires s == "one/two" && pwd == "/miao/bau" && t == "/" + pwd + "/" + s
    ensures t == "//miao/bau/one/two"
  {
  }

  lemma Line224Split(s: string)
    requires s == "//miao/bau/one/two"
    ensures Split(Trim(s), '/') == ["", "", "miao", "bau", "one", "two"]
  {
    var p := ["", "", "miao", "bau", "one", "two"];
    Line224Join(p, s);
    Line224SlashFree(p);
    SplitOfJoin(s, p);
  }

  lemma Line224SlashFree(p: seq<string>)
    requires p == ["", "", "miao", "bau", "one", "two"]
    ensures SlashFree(p)
  {
    var p1, p2 := ["", "", "miao"], ["bau", "one", "two"];
    assert p == p1 + p2;
    SlashFree224a(p1);
    SlashFree224b(p2);
    SlashFreeAppend(p1, p2);
  }

  lemma SlashFree224a(p: seq<string>)
    requires p == ["", "", "miao"]
    ensures SlashFree(p)
  {
  }

  lemma SlashFree224b(p: seq<string>)
    requires p == ["bau", "one", "two"]
    ensures SlashFree(p)
  {
  }

  lemma Line224Join(p: seq<string>, s: string)
    requires p == ["", "", "miao", "bau", "one", "two"]
    requires s == "//miao/bau/one/two"
    ensures Join(p, '/') == s
  {
    var p1, p2 := ["", "", "miao", "bau"], ["one", "two"];
    assert p == p1 + p2;
    JoinAppend(p1, p2, '/');
    Line224JoinPiece1(p1, "//miao/bau");
    Line224JoinPiece2(p2, "one/two");
    Line224JoinText("//miao/bau", "one/two", s);
  }

  lemma Line224JoinPiece1(p: seq<string>, s: string)
    requires p == ["", "", "miao", "bau"]
    requires s == "//miao/bau"
    ensures Join(p, '/') == s
  {
    Join4(p[0], p[1], p[2], p[3]);
  }

  lemma Line224JoinPiece2(p: seq<string>, s: string)
    requires p == ["one", "two"]
    requires s == "one/two"
    ensures Join(p, '/') == s
  {
    Join2(p[0], p[1]);
  }

  lemma Line224JoinText(a1: string, a2: string, s: string)
    requires a1 == "//miao/bau" && a2 == "one/two"
    requires s == "//miao/bau/one/two"
    ensures s == a1 + "/" + a2
  {
  }

  lemma Line224Rejoin(p: seq<string>, s: string)
    requires p == ["miao", "bau", "one", "two"]
    requires s == "miao/bau/one/two"
    ensures Join(p, '/') == s
  {
    Join4(p[0], p[1], p[2], p[3]);
  }

  /** The rooted `to_abs_path` gives what line 224 expects. */
  lemma ToAbsPathRootedLine224(s: string, pwd: string)
    requires s == "one/two" && pwd == "/miao/bau"
    ensures ToAbsPathRooted(s, pwd) == "/miao/bau/one/two"
  {
    ToAbsPathLine224(s, pwd);
    Rooted224("miao/bau/one/two", "/miao/bau/one/two");
    RootedOf(s, pwd, "miao/bau/one/two", "/miao/bau/one/two");
  }

  /** The rooted `to_abs_path` gives what line 229 expects. */
  lemma ToAbsPathRootedLine229(s: string, pwd: string)
    requires s == "bau" && pwd == ""
    ensures ToAbsPathRooted(s, pwd) == "/bau"
  {
    ToAbsPathLine229(s, pwd);
    RootedBau("bau", "/bau");
    RootedOf(s, pwd, "bau", "/bau");
  }

  lemma Rooted224(a: string, b: string)
    requires a == "miao/bau/one/two" && b == "/miao/bau/one/two"
    ensures b == "/" + a
  {
  }

  lemma RootedBau(a: string, b: string)
    requires a == "bau" && b == "/bau"
    ensures b == "/" + a
  {
  }

  lemma RootedOf(s: string, pwd: string, a: string, b: string)
    requires s == [] || s[0] != '/'
    requires ToAbsPath(s, pwd) == a && b == "/" + a
    ensures ToAbsPathRooted(s, pwd) == b
  {
    RootedRelative(s, pwd);
  }

  /** Line 229 expects "/bau" with an empty working path; the code gives "bau". */
  lemma ToAbsPathLine229(s: string, pwd: string)
    requires s == "bau" && pwd == ""
    ensures ToAbsPath(s, pwd) == "bau"
  {
    var t := "/" + pwd + "/" + s;
    assert t == "//bau";
    Line229Canonical(t);
  }

  lemma Line229Canonical(t: string)
    requires t == "//bau"
    ensures Canonical(t) == ["bau"]
  {
    Line229Split(t);
    Line229Cancel(["", "", "bau"]);
  }

  lemma Line229Cancel(p: seq<string>)
    requires p == ["", "", "bau"]
    ensures CancelBackward(p, 0) == ["bau"]
  {
    assert p == ["", ""] + ["bau"];
    CancelBackwardAfterNoSurvivors(["", ""], ["bau"]);
  }

  lemma Line229Split(s: string)
    requires s == "//bau"
    ensures Split(Trim(s), '/') == ["", "", "bau"]
  {
    var p := ["", "", "bau"];
    Join3(p[0], p[1], p[2]);
    SplitOfJoin(s, p);
  }

  /**
   * Without the proviso of SanitizeStrIdempotent the round trip fails:
   * "x/../ b" has the one segment " b", but its `sanitize_str` result " b"
   * is trimmed before splitting and gives "b".
   */
  lemma SanitizeStrNotIdempotent(s: string)
    requires s == "x/../ b"
    ensures Canonical(s) == [" b"]
    ensures SanitizeStr(s) == " b"
    ensures Canonical(SanitizeStr(s)) == ["b"]
  {
    NotIdempotentSplit(s);
    NotIdempotentCancel(["x", "..", " b"]);
    TrimmedSpaceB(" b");
  }

  lemma NotIdempotentSplit(s: string)
    requires s == "x/../ b"
    ensures Split(Trim(s), '/') == ["x", "..", " b"]
  {
    var p := ["x", "..", " b"];
    Join3(p[0], p[1], p[2]);
    SplitOfJoin(s, p);
  }

  lemma NotIdempotentCancel(p: seq<string>)
    requires p == ["x", "..", " b"]
    ensures CancelBackward(p, 0) == [" b"]
  {
    assert p == [] + ["x", ".."] + [" b"];
    CancelBackwardUpCancels([], "x", [" b"], 0);
    assert [] + [" b"] == [" b"];
    CancelBackwardFixes([" b"]);
  }

  lemma TrimmedSpaceB(t: string)
    requires t == " b"
    ensures Canonical(t) == ["b"]
  {
    SpaceBSplit(t);
    CancelBackwardFixes(["b"]);
  }

  lemma SpaceBSplit(t: string)
    requires t == " b"
    ensures Split(Trim(t), '/') == ["b"]
  {
    TrimSpaceB(t);
    SplitPiece("b", '/');
  }

  lemma TrimSpaceB(t: string)
    requires t == " b"
    ensures Trim(t) == "b"
  {
    assert !IsWhitespace(t[1]);
    assert TrimEnd(t) == t;
    assert IsWhitespace(t[0]);
    assert t[1..] == "b";
    assert TrimStart(t[1..]) == t[1..];
  }

}
