/**
 * The lexical path canonicaliser of src/file_system.rs: `sanitize`,
 * `sanitize_str` and `to_abs_path`. A path string is trimmed, split on '/',
 * and its segments are walked from the back with a count of pending "..":
 * empty segments and "." are dropped, ".." raises the count, and any other
 * segment is dropped while the count is positive (and lowers it) or kept.
 * The tree is never consulted, and ".." beyond the root is simply lost.
 */
module Paths {
  import opened Text

  /** A segment that the canonicaliser keeps. */
  predicate Survives(x: string)
  {
    x != "" && x != "." && x != ".."
  }

  /** A segment of a canonical path: kept by the canonicaliser and free of '/'. */
  predicate IsSegment(x: string)
  {
    Survives(x) && '/' !in x
  }

  /** `a` is `b` with some elements left out, the rest in their order. */
  predicate IsSubsequence(a: seq<string>, b: seq<string>)
    decreases |b|
  {
    if a == [] then true
    else if b == [] then false
    else if a[|a| - 1] == b[|b| - 1] then IsSubsequence(a[..|a| - 1], b[..|b| - 1])
    else IsSubsequence(a, b[..|b| - 1])
  }

  lemma {:induction false} SubsequenceExtend(a: seq<string>, b: seq<string>, v: string)
    requires IsSubsequence(a, b)
    ensures IsSubsequence(a, b + [v])
    decreases |b|, 1
  {
    assert (b + [v])[..|b|] == b;
    if a != [] && a[|a| - 1] == v {
      SubsequenceDropLast(a, b);
    }
  }

  lemma {:induction false} SubsequenceDropLast(a: seq<string>, b: seq<string>)
    requires a != [] && IsSubsequence(a, b)
    ensures IsSubsequence(a[..|a| - 1], b)
    decreases |b|, 0
  {
    var b' := b[..|b| - 1];
    assert b == b' + [b[|b| - 1]];
    if a[|a| - 1] == b[|b| - 1] {
      SubsequenceExtend(a[..|a| - 1], b', b[|b| - 1]);
    } else {
      SubsequenceDropLast(a, b');
      SubsequenceExtend(a[..|a| - 1], b', b[|b| - 1]);
    }
  }

  /** A subsequence is no longer than the sequence, and all its elements come from it. */
  lemma {:induction false} SubsequenceBounds(a: seq<string>, b: seq<string>)
    requires IsSubsequence(a, b)
    ensures |a| <= |b|
    ensures forall x :: x in a ==> x in b
    decreases |b|
  {
    if a != [] {
      var a', b' := a[..|a| - 1], b[..|b| - 1];
      assert b == b' + [b[|b| - 1]];
      if a[|a| - 1] == b[|b| - 1] {
        SubsequenceBounds(a', b');
        assert a == a' + [a[|a| - 1]];
      } else {
        SubsequenceBounds(a, b');
      }
    }
  }

  /**
   * The loop of `sanitize` as a function: what is left of `parts`, walked
   * from the back with `pending` ".." still to cancel. Every segment it keeps
   * survives.
   */
  function CancelBackward(parts: seq<string>, pending: nat): (r: seq<string>)
    ensures forall i :: 0 <= i < |r| ==> Survives(r[i])
    decreases |parts|
  {
    if parts == [] then []
    else
      var v, rest := parts[|parts| - 1], parts[..|parts| - 1];
      if v == "" || v == "." then CancelBackward(rest, pending)
      else if v == ".." then CancelBackward(rest, pending + 1)
      else if pending > 0 then CancelBackward(rest, pending - 1)
      else CancelBackward(rest, 0) + [v]
  }

  /** The kept segments are a subsequence of the input: nothing new, nothing reordered. */
  lemma {:induction false} CancelBackwardSubsequence(parts: seq<string>, pending: nat)
    ensures IsSubsequence(CancelBackward(parts, pending), parts)
    decreases |parts|
  {
    if parts != [] {
      var v, rest := parts[|parts| - 1], parts[..|parts| - 1];
      assert parts == rest + [v];
      var n' := if v == "" || v == "." then pending
        else if v == ".." then pending + 1
        else if pending > 0 then pending - 1
        else 0;
      CancelBackwardSubsequence(rest, n');
      var r := CancelBackward(rest, n');
      if Survives(v) && pending == 0 {
        assert (r + [v])[..|r|] == r;
      } else {
        SubsequenceExtend(r, rest, v);
      }
    }
  }

  /** One segment of the backward walk: what the loop body does with the last segment. */
  lemma CancelBackwardSnoc(rest: seq<string>, v: string, n: nat, n': nat)
    requires v == "" || v == "." ==> n' == n
    requires v == ".." ==> n' == n + 1
    requires Survives(v) ==> n > 0 && n' == n - 1
    ensures CancelBackward(rest + [v], n) == CancelBackward(rest, n')
  {
    assert (rest + [v])[..|rest|] == rest;
  }

  /** The loop body keeping a segment when no ".." is pending. */
  lemma CancelBackwardKeep(rest: seq<string>, v: string)
    requires Survives(v)
    ensures CancelBackward(rest + [v], 0) == CancelBackward(rest, 0) + [v]
  {
    assert (rest + [v])[..|rest|] == rest;
  }

  /**
   * An independent reference: the usual forward walk with a stack, where ".."
   * pops the last kept segment and does nothing at the root.
   */
  function NormalizeForward(parts: seq<string>): seq<string>
    decreases |parts|
  {
    if parts == [] then []
    else
      var st := NormalizeForward(parts[..|parts| - 1]);
      var v := parts[|parts| - 1];
      if v == "" || v == "." then st
      else if v == ".." then (if st == [] then [] else st[..|st| - 1])
      else st + [v]
  }

  /** `s` without its last `n` elements, or empty when it is shorter. */
  function DropLast(s: seq<string>, n: nat): seq<string>
  {
    if n >= |s| then [] else s[..|s| - n]
  }

  /**
   * Walking from the back with a pending count is the forward stack walk
   * with the last `pending` results cancelled; from a zero count the two
   * agree, so surplus ".." are clamped at the root.
   */
  lemma {:induction false} BackwardIsForward(parts: seq<string>, pending: nat)
    ensures CancelBackward(parts, pending) == DropLast(NormalizeForward(parts), pending)
    decreases |parts|
  {
    if parts != [] {
      var rest := parts[..|parts| - 1];
      var v := parts[|parts| - 1];
      var st := NormalizeForward(rest);
      if v == "" || v == "." {
        BackwardIsForward(rest, pending);
      } else if v == ".." {
        BackwardIsForward(rest, pending + 1);
      } else if pending > 0 {
        BackwardIsForward(rest, pending - 1);
        if pending < |st| + 1 {
          assert (st + [v])[..|st| + 1 - pending] == st[..|st| - (pending - 1)];
        }
      } else {
        BackwardIsForward(rest, 0);
        assert st[..|st|] == st && (st + [v])[..|st| + 1] == st + [v];
      }
    }
  }

  /** A sequence of surviving segments comes back unchanged. */
  lemma {:induction false} CancelBackwardFixes(c: seq<string>)
    requires forall i :: 0 <= i < |c| ==> Survives(c[i])
    ensures CancelBackward(c, 0) == c
    decreases |c|
  {
    if c != [] {
      CancelBackwardFixes(c[..|c| - 1]);
    }
  }

  /** Segments none of which survives cancel to nothing, whatever is pending. */
  lemma {:induction false} CancelBackwardNoSurvivors(parts: seq<string>, pending: nat)
    requires forall i :: 0 <= i < |parts| ==> !Survives(parts[i])
    ensures CancelBackward(parts, pending) == []
    decreases |parts|
  {
    if parts != [] {
      var v := parts[|parts| - 1];
      CancelBackwardNoSurvivors(parts[..|parts| - 1], if v == ".." then pending + 1 else pending);
    }
  }

  /**
   * Segments that all survive, after segments none of which does, come back
   * unchanged: the first ones can only be empty, "." or surplus "..".
   */
  lemma {:induction false} CancelBackwardAfterNoSurvivors(a: seq<string>, c: seq<string>)
    requires forall i :: 0 <= i < |a| ==> !Survives(a[i])
    requires forall i :: 0 <= i < |c| ==> Survives(c[i])
    ensures CancelBackward(a + c, 0) == c
    decreases |c|
  {
    if c == [] {
      assert a + c == a;
      CancelBackwardNoSurvivors(a, 0);
    } else {
      var init := c[..|c| - 1];
      CancelBackwardAfterNoSurvivors(a, init);
      assert (a + c)[..|a + c| - 1] == a + init;
      assert init + [c[|c| - 1]] == c;
    }
  }

  /** A surviving segment followed by ".." cancels out, wherever the pair stands. */
  lemma {:induction false} CancelBackwardUpCancels(a: seq<string>, x: string, b: seq<string>, pending: nat)
    requires Survives(x)
    ensures CancelBackward(a + [x, ".."] + b, pending) == CancelBackward(a + b, pending)
    decreases |b|
  {
    if b == [] {
      var all := a + [x, ".."];
      assert a + [x, ".."] + b == all;
      assert all[..|all| - 1] == a + [x] && all[|all| - 1] == "..";
      assert CancelBackward(all, pending) == CancelBackward(a + [x], pending + 1);
      assert (a + [x])[..|a|] == a && (a + [x])[|a|] == x;
      assert a + b == a;
    } else {
      var v, b' := b[|b| - 1], b[..|b| - 1];
      var n' := if v == "" || v == "." then pending
        else if v == ".." then pending + 1
        else if pending > 0 then pending - 1
        else 0;
      CancelBackwardUpCancels(a, x, b', n');
      assert (a + [x, ".."] + b)[..|a + [x, ".."] + b| - 1] == a + [x, ".."] + b';
      assert (a + b)[..|a + b| - 1] == a + b';
    }
  }

  /** A leading empty segment, as from a leading '/', changes nothing. */
  lemma {:induction false} CancelBackwardLeadingEmpty(parts: seq<string>, pending: nat)
    ensures CancelBackward([""] + parts, pending) == CancelBackward(parts, pending)
    decreases |parts|
  {
    var all := [""] + parts;
    if parts != [] {
      var v := parts[|parts| - 1];
      assert all[..|all| - 1] == [""] + parts[..|parts| - 1];
      assert all[|all| - 1] == v;
      if v == "" || v == "." {
        CancelBackwardLeadingEmpty(parts[..|parts| - 1], pending);
      } else if v == ".." {
        CancelBackwardLeadingEmpty(parts[..|parts| - 1], pending + 1);
      } else if pending > 0 {
        CancelBackwardLeadingEmpty(parts[..|parts| - 1], pending - 1);
      } else {
        CancelBackwardLeadingEmpty(parts[..|parts| - 1], 0);
      }
    } else {
      assert all[..0] == [];
    }
  }

  /** Pieces free of '/' stay free of '/' through the backward walk. */
  lemma {:induction false} CancelBackwardNoSlash(parts: seq<string>, pending: nat)
    requires forall i :: 0 <= i < |parts| ==> '/' !in parts[i]
    ensures forall i :: 0 <= i < |CancelBackward(parts, pending)| ==> IsSegment(CancelBackward(parts, pending)[i])
    decreases |parts|
  {
    if parts != [] {
      var v, rest := parts[|parts| - 1], parts[..|parts| - 1];
      var n' := if v == "" || v == "." then pending
        else if v == ".." then pending + 1
        else if pending > 0 then pending - 1
        else 0;
      CancelBackwardNoSlash(rest, n');
    }
  }

  /** The canonical segments of a path string: the value `sanitize` returns. */
  function Canonical(s: string): (r: seq<string>)
    ensures forall i :: 0 <= i < |r| ==> IsSegment(r[i])
  {
    var parts := Split(Trim(s), '/');
    SplitNoSeparator(Trim(s), '/');
    CancelBackwardNoSlash(parts, 0);
    CancelBackward(parts, 0)
  }

  /**
   * The canonical segments are a subsequence of the pieces of the trimmed
   * string: no more of them, each one of the pieces, in their order.
   */
  lemma CanonicalKeepsOrder(s: string)
    ensures var parts := Split(Trim(s), '/');
      && IsSubsequence(Canonical(s), parts)
      && |Canonical(s)| <= |parts|
      && forall x :: x in Canonical(s) ==> x in parts
  {
    var parts := Split(Trim(s), '/');
    CancelBackwardSubsequence(parts, 0);
    SubsequenceBounds(Canonical(s), parts);
  }

  /**
   * One turn of the loop of `sanitize`: popping the last segment of `all` and
   * updating the count and the kept segments as the loop body does keeps
   * "what is still to come, then what is kept" unchanged.
   */
  lemma CancelBackwardPop(all: seq<string>, n0: nat, q0: seq<string>, n: nat, q: seq<string>)
    requires all != []
    requires all[|all| - 1] == "" || all[|all| - 1] == "." ==> n == n0 && q == q0
    requires all[|all| - 1] == ".." ==> n == n0 + 1 && q == q0
    requires Survives(all[|all| - 1]) && n0 > 0 ==> n == n0 - 1 && q == q0
    requires Survives(all[|all| - 1]) && n0 == 0 ==> n == 0 && q == [all[|all| - 1]] + q0
    ensures CancelBackward(all[..|all| - 1], n) + q == CancelBackward(all, n0) + q0
  {
    var v, rest := all[|all| - 1], all[..|all| - 1];
    if Survives(v) && n0 == 0 {
      assert CancelBackward(rest, 0) + [v] + q0 == CancelBackward(rest, 0) + ([v] + q0);
    }
  }

  /**
   * `KfileSystem::sanitize`: pop segments off the back of the split string,
   * keeping a count of pending "..", and push the kept ones on the front.
   */
  method Sanitize(s: string) returns (q: seq<string>)
    ensures q == Canonical(s)
  {
    var parts := Split(Trim(s), '/');
    q := [];
    var n: nat := 0;
    assert CancelBackward(parts, n) + q == Canonical(s);
    while parts != []
      invariant CancelBackward(parts, n) + q == Canonical(s)
      decreases |parts|
    {
      ghost var all, n0, q0 := parts, n, q;
      var v := parts[|parts| - 1];
      parts := parts[..|parts| - 1];
      if v == "" || v == "." {
      } else if v == ".." {
        n := n + 1;
      } else if n > 0 {
        n := n - 1;
      } else {
        q := [v] + q;
      }
      CancelBackwardPop(all, n0, q0, n, q);
    }
    assert CancelBackward(parts, n) == [];
  }

  /** `KfileSystem::sanitize_str`: the canonical segments joined with '/'. */
  function SanitizeStr(s: string): (r: string)
    ensures r == [] || (r[0] != '/' && r[|r| - 1] != '/')
  {
    var c := Canonical(s);
    if c == [] then ""
    else
      JoinEdges(c, '/');
      Join(c, '/')
  }

  /**
   * `KfileSystem::to_abs_path`. A string starting with '/' comes back as it
   * is, whatever the working path and however many "." or ".." it holds.
   * Anything else is resolved against the working path and comes back
   * canonical and WITHOUT a leading '/'.
   */
  function ToAbsPath(s: string, pwd: string): (r: string)
    ensures s != [] && s[0] == '/' ==> r == s
    ensures s == [] || s[0] != '/' ==> r == [] || r[0] != '/'
  {
    if |s| > 0 then
      if s[0] == '/' then s
      else SanitizeStr("/" + pwd + "/" + s)
    else SanitizeStr("/" + pwd)
  }

  /**
   * Canonicalising a `sanitize_str` result gives the same segments back,
   * provided no segment begins or ends with whitespace (the whole string is
   * trimmed before it is split).
   */
  lemma SanitizeStrIdempotent(s: string)
    requires forall i :: 0 <= i < |Canonical(s)| ==> TrimmedEdges(Canonical(s)[i])
    ensures Canonical(SanitizeStr(s)) == Canonical(s)
  {
    var c := Canonical(s);
    if c == [] {
      CanonicalOfBlank(SanitizeStr(s));
    } else {
      CanonicalOfJoin(c);
    }
  }

  /** A string that is empty once trimmed names the root. */
  lemma CanonicalOfBlank(s: string)
    requires Trim(s) == []
    ensures Canonical(s) == []
  {
    var t := Trim(s);
    SplitOfEmpty(t);
    CancelOfEmptyPiece(Split(t, '/'));
  }

  lemma SplitOfEmpty(t: string)
    requires t == []
    ensures Split(t, '/') == [""]
  {
  }

  lemma CancelOfEmptyPiece(p: seq<string>)
    requires p == [""]
    ensures CancelBackward(p, 0) == []
  {
    assert p[..0] == [];
  }

  /** Canonical segments with trimmed edges, joined with '/', canonicalise to themselves. */
  lemma CanonicalOfJoin(c: seq<string>)
    requires c != []
    requires forall i :: 0 <= i < |c| ==> IsSegment(c[i]) && TrimmedEdges(c[i])
    ensures Canonical(Join(c, '/')) == c
  {
    var j := Join(c, '/');
    JoinEdges(c, '/');
    assert TrimmedEdges(j);
    JoinThenSplit(c, '/');
    CancelBackwardFixes(c);
  }

  /** A string without whitespace yields segments without whitespace. */
  lemma CanonicalNoWhitespace(s: string)
    requires NoWhitespace(s)
    ensures forall i :: 0 <= i < |Canonical(s)| ==> NoWhitespace(Canonical(s)[i])
  {
    var parts := Split(Trim(s), '/');
    var c := Canonical(s);
    CanonicalKeepsOrder(s);
    forall i, k | 0 <= i < |c| && 0 <= k < |c[i]| ensures !IsWhitespace(c[i][k]) {
      assert c[i] in parts;
      var m :| 0 <= m < |parts| && parts[m] == c[i];
      assert c[i][k] in parts[m];
      SplitChars(Trim(s), '/', m, c[i][k]);
    }
  }

  /** Joining whitespace-free segments with '/' gives a whitespace-free string. */
  lemma JoinNoWhitespace(c: seq<string>)
    requires forall i :: 0 <= i < |c| ==> NoWhitespace(c[i])
    ensures NoWhitespace(Join(c, '/'))
  {
    var j := Join(c, '/');
    forall k | 0 <= k < |j| ensures !IsWhitespace(j[k]) {
      JoinChars(c, '/', j[k]);
    }
  }

  /** A leading '/' does not change the segments of a whitespace-free string. */
  lemma CanonicalSlashPrefix(x: string)
    requires NoWhitespace(x)
    ensures Canonical("/" + x) == Canonical(x)
  {
    var s := "/" + x;
    TrimNoWhitespace(x);
    assert NoWhitespace(s) by {
      forall i | 1 <= i < |s| ensures !IsWhitespace(s[i]) {
        assert s[i] == x[i - 1];
      }
    }
    TrimNoWhitespace(s);
    SplitLeadingSeparator(x, '/');
    CancelBackwardLeadingEmpty(Split(x, '/'), 0);
  }

  /** `trim` leaves a whitespace-free string alone. */
  lemma TrimNoWhitespace(s: string)
    requires NoWhitespace(s)
    ensures Trim(s) == s
  {
    assert TrimmedEdges(s);
  }

  /** A whitespace-free path gives a whitespace-free absolute path. */
  lemma ToAbsPathNoWhitespace(s: string, pwd: string)
    requires NoWhitespace(s) && NoWhitespace(pwd)
    ensures NoWhitespace(ToAbsPath(s, pwd))
  {
    if s == [] {
      CanonicalNoWhitespace("/" + pwd);
      JoinNoWhitespace(Canonical("/" + pwd));
    } else if s[0] != '/' {
      CanonicalNoWhitespace("/" + pwd + "/" + s);
      JoinNoWhitespace(Canonical("/" + pwd + "/" + s));
    }
  }

  /**
   * Re-resolving a stored working path: with no argument, `to_abs_path`
   * names the same segments as the stored string itself.
   */
  lemma ToAbsPathOfNothing(pwd: string)
    requires NoWhitespace(pwd)
    ensures Canonical(ToAbsPath("", pwd)) == Canonical(pwd)
  {
    CanonicalNoWhitespace("/" + pwd);
    SanitizeStrIdempotent("/" + pwd);
    CanonicalSlashPrefix(pwd);
  }

  /**
   * A relative whitespace-free path names the segments of "/" + pwd + "/" + s:
   * canonicalising the result of `to_abs_path` again loses nothing.
   */
  lemma ToAbsPathRelative(s: string, pwd: string)
    requires NoWhitespace(s) && NoWhitespace(pwd)
    requires s != [] && s[0] != '/'
    ensures Canonical(ToAbsPath(s, pwd)) == Canonical("/" + pwd + "/" + s)
  {
    CanonicalNoWhitespace("/" + pwd + "/" + s);
    SanitizeStrIdempotent("/" + pwd + "/" + s);
  }

  /**
   * A path stored by `cd` resolves, with no argument, to what it resolved
   * to when it was given: the working path survives being stored.
   */
  lemma ToAbsPathStable(s: string, pwd: string)
    requires NoWhitespace(s) && NoWhitespace(pwd)
    ensures Canonical(ToAbsPath("", ToAbsPath(s, pwd))) == Canonical(ToAbsPath(s, pwd))
  {
    ToAbsPathNoWhitespace(s, pwd);
    ToAbsPathOfNothing(ToAbsPath(s, pwd));
  }

  /** The empty working path with no argument names the root. */
  lemma ToAbsPathRoot(pwd: string)
    requires pwd == []
    ensures Canonical(ToAbsPath("", pwd)) == []
  {
    ToAbsPathOfNothing(pwd);
    CanonicalOfBlank(pwd);
  }

  /**
   * `to_abs_path` as its tests expect it: every result is rooted, a relative
   * path coming back as "/" and then its canonical form. The session keeps
   * the function as written, ToAbsPath; the two name the same segments
   * (ToAbsPathRootedSameSegments).
   */
  function ToAbsPathRooted(s: string, pwd: string): (r: string)
    ensures r != [] && r[0] == '/'
    ensures s != [] && s[0] == '/' ==> r == s
  {
    if |s| > 0 && s[0] == '/' then s else "/" + ToAbsPath(s, pwd)
  }

  /** A relative path comes back as "/" followed by what `to_abs_path` gives. */
  lemma RootedRelative(s: string, pwd: string)
    requires s == [] || s[0] != '/'
    ensures ToAbsPathRooted(s, pwd) == "/" + ToAbsPath(s, pwd)
  {
  }

  /** The rooted and the as-written results resolve to the same segments. */
  lemma ToAbsPathRootedSameSegments(s: string, pwd: string)
    requires NoWhitespace(s) && NoWhitespace(pwd)
    ensures Canonical(ToAbsPathRooted(s, pwd)) == Canonical(ToAbsPath(s, pwd))
  {
    if s == [] || s[0] != '/' {
      ToAbsPathNoWhitespace(s, pwd);
      CanonicalSlashPrefix(ToAbsPath(s, pwd));
    }
  }

}
