/** std::set_symmetric_difference over two sorted key lists, as the garbage
    collector uses it to find the ids that are referenced but absent, or
    present but unreferenced. */
module SymDiffs {
  import opened Strings
  import opened QMaps

  /** The merge std::set_symmetric_difference performs: walk both sorted
      ranges, copy the smaller head, skip a head the two ranges share, and
      copy whatever is left of either range at the end. */
  function SymDiff(a: seq<string>, b: seq<string>): seq<string>
    decreases |a| + |b|
  {
    if a == [] then b
    else if b == [] then a
    else if Less(a[0], b[0]) then [a[0]] + SymDiff(a[1..], b)
    else if Less(b[0], a[0]) then [b[0]] + SymDiff(a, b[1..])
    else SymDiff(a[1..], b[1..])
  }

  /** The output never holds more than both inputs together. */
  lemma {:induction false} SymDiffLength(a: seq<string>, b: seq<string>)
    ensures |SymDiff(a, b)| <= |a| + |b|
    decreases |a| + |b|
  {
    if a == [] || b == [] {
    } else if Less(a[0], b[0]) {
      SymDiffLength(a[1..], b);
    } else if Less(b[0], a[0]) {
      SymDiffLength(a, b[1..]);
    } else {
      SymDiffLength(a[1..], b[1..]);
    }
  }

  /** Ranges with no key in common come out whole: the output can reach |a| + |b|. */
  lemma {:induction false} SymDiffDisjoint(a: seq<string>, b: seq<string>)
    requires forall i, j :: 0 <= i < |a| && 0 <= j < |b| ==> a[i] != b[j]
    ensures |SymDiff(a, b)| == |a| + |b|
    decreases |a| + |b|
  {
    if a == [] || b == [] {
    } else if Less(a[0], b[0]) {
      SymDiffDisjoint(a[1..], b);
    } else if Less(b[0], a[0]) {
      SymDiffDisjoint(a, b[1..]);
    } else {
      LessTotal(a[0], b[0]);
      assert false;
    }
  }

  /** Every output element comes from one of the inputs. */
  lemma {:induction false} SymDiffFrom(a: seq<string>, b: seq<string>, x: string)
    requires x in SymDiff(a, b)
    ensures x in a || x in b
    decreases |a| + |b|
  {
    if a == [] || b == [] {
    } else if Less(a[0], b[0]) {
      if x != a[0] {
        SymDiffFrom(a[1..], b, x);
      }
    } else if Less(b[0], a[0]) {
      if x != b[0] {
        SymDiffFrom(a, b[1..], x);
      }
    } else {
      SymDiffFrom(a[1..], b[1..], x);
    }
  }

  /** A key below the head of a strictly sorted list is not in the list. */
  lemma BelowHead(s: seq<string>, x: string)
    requires StrictlySorted(s) && s != [] && Less(x, s[0])
    ensures x !in s
  {
    if x in s {
      var i :| 0 <= i < |s| && s[i] == x;
      if i == 0 {
        LessIrreflexive(x);
      } else {
        LessTransitive(x, s[0], s[i]);
        LessIrreflexive(x);
      }
    }
  }

  /** A head that is below every element of a strictly sorted tail keeps the list strictly sorted. */
  lemma SortedCons(h: string, t: seq<string>)
    requires StrictlySorted(t)
    requires forall x :: x in t ==> Less(h, x)
    ensures StrictlySorted([h] + t)
  {
    var s := [h] + t;
    forall i, j | 0 <= i < j < |s| ensures Less(s[i], s[j]) {
      assert s[j] == t[j - 1];
      if i > 0 {
        assert s[i] == t[i - 1];
      }
    }
  }

  /** On strictly sorted inputs the output is strictly sorted, and holds
      exactly the keys that are in one input but not the other. */
  lemma {:induction false} SymDiffSpec(a: seq<string>, b: seq<string>)
    requires StrictlySorted(a) && StrictlySorted(b)
    ensures StrictlySorted(SymDiff(a, b))
    ensures forall x :: x in SymDiff(a, b) <==> ((x in a) != (x in b))
    decreases |a| + |b|
  {
    if a == [] || b == [] {
    } else if Less(a[0], b[0]) {
      var t := SymDiff(a[1..], b);
      SymDiffSpec(a[1..], b);
      forall x | x in t ensures Less(a[0], x) {
        SymDiffFrom(a[1..], b, x);
        if x in a[1..] {
          var i :| 0 <= i < |a[1..]| && a[1..][i] == x;
          assert a[i + 1] == x;
        } else {
          var j :| 0 <= j < |b| && b[j] == x;
          if j > 0 {
            LessTransitive(a[0], b[0], b[j]);
          }
        }
      }
      SortedCons(a[0], t);
      BelowHead(b, a[0]);
      assert a == [a[0]] + a[1..];
    } else if Less(b[0], a[0]) {
      var t := SymDiff(a, b[1..]);
      SymDiffSpec(a, b[1..]);
      forall x | x in t ensures Less(b[0], x) {
        SymDiffFrom(a, b[1..], x);
        if x in b[1..] {
          var j :| 0 <= j < |b[1..]| && b[1..][j] == x;
          assert b[j + 1] == x;
        } else {
          var i :| 0 <= i < |a| && a[i] == x;
          if i > 0 {
            LessTransitive(b[0], a[0], a[i]);
          }
        }
      }
      SortedCons(b[0], t);
      BelowHead(a, b[0]);
      assert b == [b[0]] + b[1..];
    } else {
      LessTotal(a[0], b[0]);
      SymDiffSpec(a[1..], b[1..]);
      assert a == [a[0]] + a[1..];
      assert b == [b[0]] + b[1..];
      assert a[0] !in a[1..] by {
        if a[1..] != [] {
          BelowHead(a[1..], a[0]);
        }
      }
      assert b[0] !in b[1..] by {
        if b[1..] != [] {
          BelowHead(b[1..], b[0]);
        }
      }
    }
  }

  /** The merge from position i of a and position j of b on, by index: the
      loop of set_symmetric_difference, one output element per step. */
  function SymDiffAt(a: seq<string>, b: seq<string>, i: nat, j: nat): seq<string>
    requires i <= |a| && j <= |b|
    decreases |a| - i + |b| - j
  {
    if i == |a| && j == |b| then []
    else if i == |a| then [b[j]] + SymDiffAt(a, b, i, j + 1)
    else if j == |b| then [a[i]] + SymDiffAt(a, b, i + 1, j)
    else if Less(a[i], b[j]) then [a[i]] + SymDiffAt(a, b, i + 1, j)
    else if Less(b[j], a[i]) then [b[j]] + SymDiffAt(a, b, i, j + 1)
    else SymDiffAt(a, b, i + 1, j + 1)
  }

  /** The merge by index is the merge of what is left of the two ranges. */
  lemma {:induction false} SymDiffAtRest(a: seq<string>, b: seq<string>, i: nat, j: nat)
    requires i <= |a| && j <= |b|
    ensures SymDiffAt(a, b, i, j) == SymDiff(a[i..], b[j..])
    decreases |a| - i + |b| - j
  {
    if i == |a| && j == |b| {
    } else if i == |a| {
      SymDiffAtRest(a, b, i, j + 1);
      assert b[j..] == [b[j]] + b[j + 1..];
    } else if j == |b| {
      SymDiffAtRest(a, b, i + 1, j);
      assert a[i..] == [a[i]] + a[i + 1..];
    } else {
      assert a[i..][0] == a[i] && a[i..][1..] == a[i + 1..];
      assert b[j..][0] == b[j] && b[j..][1..] == b[j + 1..];
      if Less(a[i], b[j]) {
        SymDiffAtRest(a, b, i + 1, j);
      } else if Less(b[j], a[i]) {
        SymDiffAtRest(a, b, i, j + 1);
      } else {
        SymDiffAtRest(a, b, i + 1, j + 1);
      }
    }
  }

  /** set_symmetric_difference writing through an output iterator into a
      buffer of fixed size: it fills `out` front to back and reports
      `fits == false` at the first element that would go past the end. */
  method SymmetricDifferenceInto(a: seq<string>, b: seq<string>, out: array<string>)
    returns (n: nat, fits: bool)
    modifies out
    ensures fits <==> |SymDiff(a, b)| <= out.Length
    ensures fits ==> n == |SymDiff(a, b)| && out[..n] == SymDiff(a, b)
    ensures !fits ==> n == out.Length && out[..] == SymDiff(a, b)[..out.Length]
  {
    SymDiffAtRest(a, b, 0, 0);
    assert a[0..] == a && b[0..] == b;
    ghost var whole := SymDiff(a, b);
    var i, j := 0, 0;
    n := 0;
    while i < |a| || j < |b|
      invariant 0 <= i <= |a| && 0 <= j <= |b| && n <= out.Length
      invariant out[..n] + SymDiffAt(a, b, i, j) == whole
      decreases |a| - i + |b| - j
    {
      var emit := true;
      var x: string;
      if i == |a| {
        x, j := b[j], j + 1;
      } else if j == |b| || Less(a[i], b[j]) {
        x, i := a[i], i + 1;
      } else if Less(b[j], a[i]) {
        x, j := b[j], j + 1;
      } else {
        emit, i, j := false, i + 1, j + 1;
      }
      if emit {
        if n == out.Length {
          PrefixOfWhole(out[..n], [x] + SymDiffAt(a, b, i, j), whole);
          assert out[..] == out[..n];
          return n, false;
        }
        AppendAssoc(out[..n], [x], SymDiffAt(a, b, i, j));
        out[n] := x;
        assert out[..n + 1] == out[..n] + [x];
        n := n + 1;
      }
    }
    return n, true;
  }

  /** Concatenation is associative. */
  lemma AppendAssoc<T>(p: seq<T>, q: seq<T>, t: seq<T>)
    ensures (p + q) + t == p + (q + t)
  {
  }

  /** A sequence that the whole begins with is the whole's prefix of its length. */
  lemma PrefixOfWhole(p: seq<string>, t: seq<string>, whole: seq<string>)
    requires p + t == whole
    ensures |whole| == |p| + |t| && whole[..|p|] == p
  {
  }

  /** The size line 145 gives the result vector before the merge writes into it. */
  function PresizedCapacity(a: seq<string>, b: seq<string>): (c: nat)
    ensures c >= |a| && c >= |b|
    ensures c == |a| || c == |b|
  {
    if |a| >= |b| then |a| else |b|
  }

  /** One id referenced only by a page and another present only on disk
      already need two slots, but the vector is given one. */
  lemma PresizedTooSmall()
    ensures |SymDiff(["{a}"], ["{b}"])| > PresizedCapacity(["{a}"], ["{b}"])
  {
    assert Less("{a}", "{b}") by {
      assert "{a}"[1..] == "a}" && "{b}"[1..] == "b}";
    }
    assert SymDiff(["{a}"], ["{b}"]) == ["{a}"] + SymDiff([], ["{b}"]);
  }

  /** The capacity that always suffices: the two key lists together. */
  function SafeCapacity(a: seq<string>, b: seq<string>): (c: nat)
    ensures |SymDiff(a, b)| <= c
  {
    SymDiffLength(a, b);
    |a| + |b|
  }
}
