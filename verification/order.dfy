/**
 * The order Rust's `Vec<String>::sort` uses: `Ord` on `String`, which is
 * byte-wise lexicographic on UTF-8. UTF-8 preserves the order of code
 * points, so this is lexicographic order on characters, a proper prefix
 * coming first. (Dafny's own `<` on sequences means "proper prefix".)
 */
module Order {

  /**
   * `a < b` for `String`, one character at a time. It is the order that
   * `Precedes` describes all at once.
   */
  predicate Less(a: string, b: string)
    ensures Less(a, b) <==> Precedes(a, b)
    decreases |a|
  {
    PrecedesCases(a, b);
    if b == [] then false
    else if a == [] then true
    else a[0] < b[0] || (a[0] == b[0] && Less(a[1..], b[1..]))
  }

  /**
   * Lexicographic order stated without recursion: `a` is a proper prefix of
   * `b`, or at the first position where they differ `a` has the smaller
   * character.
   */
  predicate Precedes(a: string, b: string)
  {
    || (|a| < |b| && a == b[..|a|])
    || exists i :: 0 <= i < |a| && i < |b| && a[..i] == b[..i] && a[i] < b[i]
  }

  /** How `Precedes` decides on the first characters, and passes to the tails when they agree. */
  lemma PrecedesCases(a: string, b: string)
    ensures b == [] ==> !Precedes(a, b)
    ensures b != [] && a == [] ==> Precedes(a, b)
    ensures a != [] && b != [] && a[0] < b[0] ==> Precedes(a, b)
    ensures a != [] && b != [] && a[0] > b[0] ==> !Precedes(a, b)
    ensures a != [] && b != [] && a[0] == b[0] ==> (Precedes(a, b) <==> Precedes(a[1..], b[1..]))
  {
    if a != [] && b != [] {
      if a[0] < b[0] {
        assert a[..0] == b[..0];
      } else if a[0] == b[0] {
        PrecedesTail(a, b);
      }
    }
  }

  lemma PrecedesTail(a: string, b: string)
    requires a != [] && b != [] && a[0] == b[0]
    ensures Precedes(a, b) <==> Precedes(a[1..], b[1..])
  {
    if Precedes(a, b) {
      PrecedesToTail(a, b);
    }
    if Precedes(a[1..], b[1..]) {
      PrecedesFromTail(a, b);
    }
  }

  lemma PrecedesToTail(a: string, b: string)
    requires a != [] && b != [] && a[0] == b[0] && Precedes(a, b)
    ensures Precedes(a[1..], b[1..])
  {
    var a', b' := a[1..], b[1..];
    if |a| < |b| && a == b[..|a|] {
      assert a' == b'[..|a'|];
    } else {
      var i :| 0 <= i < |a| && i < |b| && a[..i] == b[..i] && a[i] < b[i];
      assert a'[..i - 1] == a[..i][1..] && b'[..i - 1] == b[..i][1..];
      assert a'[i - 1] < b'[i - 1];
    }
  }

  lemma PrecedesFromTail(a: string, b: string)
    requires a != [] && b != [] && a[0] == b[0] && Precedes(a[1..], b[1..])
    ensures Precedes(a, b)
  {
    var a', b' := a[1..], b[1..];
    if |a'| < |b'| && a' == b'[..|a'|] {
      assert a == [a[0]] + a' && b[..|a|] == [b[0]] + b'[..|a'|];
    } else {
      var j :| 0 <= j < |a'| && j < |b'| && a'[..j] == b'[..j] && a'[j] < b'[j];
      assert a[..j + 1] == [a[0]] + a'[..j] && b[..j + 1] == [b[0]] + b'[..j];
      assert a[j + 1] < b[j + 1];
    }
  }

  lemma {:induction false} LessIrreflexive(a: string)
    ensures !Less(a, a)
    decreases |a|
  {
    if a != [] { LessIrreflexive(a[1..]); }
  }

  lemma {:induction false} LessAsymmetric(a: string, b: string)
    ensures !(Less(a, b) && Less(b, a))
    decreases |a|
  {
    if a != [] && b != [] && a[0] == b[0] { LessAsymmetric(a[1..], b[1..]); }
  }

  lemma {:induction false} LessTransitive(a: string, b: string, c: string)
    requires Less(a, b) && Less(b, c)
    ensures Less(a, c)
    decreases |a|
  {
    if a != [] && a[0] == b[0] && b[0] == c[0] {
      LessTransitive(a[1..], b[1..], c[1..]);
    }
  }

  lemma {:induction false} LessTotal(a: string, b: string)
    ensures Less(a, b) || a == b || Less(b, a)
    decreases |a|
  {
    if a != [] && b != [] && a[0] == b[0] {
      LessTotal(a[1..], b[1..]);
      if a[1..] == b[1..] {
        assert a == [a[0]] + a[1..] && b == [b[0]] + b[1..];
      }
    }
  }

  /** Every two positions are in strictly ascending order (so no repeats). */
  predicate StrictlyAscending(s: seq<string>)
  {
    forall i, j :: 0 <= i < j < |s| ==> Less(s[i], s[j])
  }

  /** `ks` lists exactly the strings of `keys`, ascending, each once. */
  predicate IsSortedListing(ks: seq<string>, keys: set<string>)
  {
    && StrictlyAscending(ks)
    && (forall x :: x in ks ==> x in keys)
    && (forall x :: x in keys ==> x in ks)
  }

  predicate IsLeast(m: string, keys: set<string>)
  {
    m in keys && forall y :: y in keys && y != m ==> Less(m, y)
  }

  lemma LeastExists(keys: set<string>)
    requires keys != {}
    ensures exists m :: IsLeast(m, keys)
    decreases keys
  {
    var x :| x in keys;
    var rest := keys - {x};
    if rest == {} {
      assert keys == {x};
      assert IsLeast(x, keys);
    } else {
      LeastExists(rest);
      var m :| IsLeast(m, rest);
      LessTotal(x, m);
      if Less(x, m) {
        forall y | y in keys && y != x ensures Less(x, y) {
          if y != m { LessTransitive(x, m, y); }
        }
        assert IsLeast(x, keys);
      } else {
        assert IsLeast(m, keys);
      }
    }
  }

  lemma LeastUnique(keys: set<string>)
    ensures forall m, m' :: IsLeast(m, keys) && IsLeast(m', keys) ==> m == m'
  {
    forall m, m' | IsLeast(m, keys) && IsLeast(m', keys) ensures m == m' {
      LessAsymmetric(m, m');
    }
  }

  /** The keys in ascending order: what `v.sort()` leaves in the vector of keys. */
  function SortedKeys(keys: set<string>): (r: seq<string>)
    ensures IsSortedListing(r, keys)
    decreases keys
  {
    if keys == {} then []
    else
      LeastExists(keys);
      LeastUnique(keys);
      var m :| IsLeast(m, keys);
      var tail := SortedKeys(keys - {m});
      assert forall j :: 0 <= j < |tail| ==> Less(m, tail[j]);
      [m] + tail
  }

  /**
   * A set has only one strictly ascending listing: so the listing depends on
   * the set alone, not on the order the keys were inserted or come out of
   * the hash map.
   */
  lemma {:induction false} SortedListingUnique(a: seq<string>, b: seq<string>, keys: set<string>)
    requires IsSortedListing(a, keys) && IsSortedListing(b, keys)
    ensures a == b
    decreases |a|
  {
    ListingEmptyIff(a, keys);
    ListingEmptyIff(b, keys);
    if keys != {} {
      assert IsLeast(a[0], keys) by {
        forall y | y in keys && y != a[0] ensures Less(a[0], y) {
          var j :| 0 <= j < |a| && a[j] == y;
        }
      }
      assert IsLeast(b[0], keys) by {
        forall y | y in keys && y != b[0] ensures Less(b[0], y) {
          var j :| 0 <= j < |b| && b[j] == y;
        }
      }
      LeastUnique(keys);
      var rest := keys - {a[0]};
      forall x ensures x in a[1..] <==> x in rest {
        if x in a[1..] {
          var j :| 1 <= j < |a| && a[j] == x;
          LessIrreflexive(x);
        }
      }
      forall x ensures x in b[1..] <==> x in rest {
        if x in b[1..] {
          var j :| 1 <= j < |b| && b[j] == x;
          LessIrreflexive(x);
        }
      }
      SortedListingUnique(a[1..], b[1..], rest);
      assert a == [a[0]] + a[1..] && b == [b[0]] + b[1..];
    }
  }

  lemma ListingEmptyIff(ks: seq<string>, keys: set<string>)
    requires IsSortedListing(ks, keys)
    ensures ks == [] <==> keys == {}
  {
    if ks != [] {
      assert ks[0] in keys;
    }
    if keys != {} {
      var x :| x in keys;
      assert x in ks;
    }
  }

}
