/** The letter tiles of the "ordonner des lettres" widget: one tile per
    character of an answer, the in-place swap shuffle that scrambles them, and
    the check that colours a block once the learner has reordered its tiles. */
module LetterTiles {

  /** Every draw lies in [0, 1), as Math.random() promises. */
  predicate UnitDraws(rs: seq<real>)
  {
    forall i :: 0 <= i < |rs| ==> 0.0 <= rs[i] < 1.0
  }

  /** Math.round(r * (n - 1)), the index the shuffle swaps with. Math.round
      takes the nearest integer and rounds a half up. */
  function SwapIndex(r: real, n: nat): (pos: nat)
    requires 0.0 <= r < 1.0 && 0 < n
    ensures pos < n
    ensures pos as real - 0.5 <= r * (n - 1) as real < pos as real + 0.5
  {
    ScaleBelow(r, (n - 1) as real);
    (r * (n - 1) as real + 0.5).Floor
  }

  /** A draw in [0, 1) scales m >= 0 to at most m. */
  lemma ScaleBelow(r: real, m: real)
    requires 0.0 <= r < 1.0 && 0.0 <= m
    ensures 0.0 <= r * m <= m
  {
    assert m - r * m == (1.0 - r) * m;
  }

  /** The index each iteration of the shuffle swaps with, for an array of
      length n: the i-th draw rounded onto [0, n - 1]. */
  function SwapPositions(rs: seq<real>, n: nat): (ps: seq<nat>)
    requires |rs| <= n && UnitDraws(rs)
    ensures |ps| == |rs|
    ensures forall i :: 0 <= i < |ps| ==> ps[i] < n
  {
    seq(|rs|, i requires 0 <= i < |rs| => SwapIndex(rs[i], n))
  }

  /** One iteration of the shuffle loop: `tmp = arr[pos]; arr[pos] = arr[i]; arr[i] = tmp`. */
  function Swap<T>(s: seq<T>, i: nat, pos: nat): (r: seq<T>)
    requires i < |s| && pos < |s|
    ensures |r| == |s|
  {
    seq(|s|, j requires 0 <= j < |s| => if j == i then s[pos] else if j == pos then s[i] else s[j])
  }

  /** A swap only moves elements around: the multiset is unchanged. */
  lemma SwapPermutes<T>(s: seq<T>, i: nat, pos: nat)
    requires i < |s| && pos < |s|
    ensures multiset(Swap(s, i, pos)) == multiset(s)
  {
    var t := s[pos := s[i]];
    assert Swap(s, i, pos) == t[i := s[pos]];
    assert multiset(t) == multiset(s) - multiset{s[pos]} + multiset{s[i]};
  }

  /** The array after the first k iterations of the shuffle loop over s, the
      i-th iteration swapping position i with position ps[i]. */
  function ShuffleSteps<T>(s: seq<T>, ps: seq<nat>, k: nat): (r: seq<T>)
    requires k <= |s| == |ps| && forall i :: 0 <= i < |ps| ==> ps[i] < |s|
    ensures |r| == |s|
  {
    if k == 0 then s
    else Swap(ShuffleSteps(s, ps, k - 1), k - 1, ps[k - 1])
  }

  /** What shuffle(arr) leaves in arr: all |arr| iterations done. */
  function Shuffled<T>(s: seq<T>, rs: seq<real>): seq<T>
    requires |s| == |rs| && UnitDraws(rs)
  {
    ShuffleSteps(s, SwapPositions(rs, |s|), |s|)
  }

  /** Every prefix of the shuffle loop permutes the array: same length, same multiset. */
  lemma {:induction false} ShuffleStepsPermute<T>(s: seq<T>, ps: seq<nat>, k: nat)
    requires k <= |s| == |ps| && forall i :: 0 <= i < |ps| ==> ps[i] < |s|
    ensures |ShuffleSteps(s, ps, k)| == |s|
    ensures multiset(ShuffleSteps(s, ps, k)) == multiset(s)
  {
    if k > 0 {
      ShuffleStepsPermute(s, ps, k - 1);
      var prev := ShuffleSteps(s, ps, k - 1);
      assert ShuffleSteps(s, ps, k) == Swap(prev, k - 1, ps[k - 1]);
      SwapPermutes(prev, k - 1, ps[k - 1]);
    }
  }

  /** shuffle(arr): swap arr[i] with arr[round(r_i * (n - 1))] for i = 0 .. n - 1, in place. */
  method Shuffle<T>(arr: array<T>, rs: seq<real>)
    requires |rs| == arr.Length && UnitDraws(rs)
    modifies arr
    ensures arr[..] == Shuffled(old(arr[..]), rs)
    ensures multiset(arr[..]) == multiset(old(arr[..]))
  {
    ghost var ps := SwapPositions(rs, arr.Length);
    ghost var s := arr[..];
    var i := 0;
    while i < arr.Length
      invariant 0 <= i <= arr.Length
      invariant arr[..] == ShuffleSteps(s, ps, i)
    {
      var pos := SwapIndex(rs[i], arr.Length);
      assert pos == ps[i];
      SwapIn(arr, i, pos);
      i := i + 1;
    }
    assert arr[..] == Shuffled(s, rs);
    ShuffleStepsPermute(s, ps, arr.Length);
  }

  /** The body of the shuffle loop: `tmp = arr[pos]; arr[pos] = arr[i]; arr[i] = tmp`. */
  method SwapIn<T>(arr: array<T>, i: nat, pos: nat)
    requires i < arr.Length && pos < arr.Length
    modifies arr
    ensures arr[..] == Swap(old(arr[..]), i, pos)
  {
    var tmp := arr[pos];
    arr[pos] := arr[i];
    arr[i] := tmp;
  }

  /** One tile per character of the answer, in the answer's order: what the
      loop `for (var j in answer)` pushes. */
  function TilesOf(answer: string): seq<string>
  {
    seq(|answer|, i requires 0 <= i < |answer| => [answer[i]])
  }

  /** The tile loop: a fresh array holding one single-character tile per character. */
  method BuildTiles(answer: string) returns (tiles: array<string>)
    ensures fresh(tiles)
    ensures tiles[..] == TilesOf(answer)
  {
    tiles := new string[|answer|];
    var j := 0;
    while j < |answer|
      invariant 0 <= j <= |answer|
      invariant forall i :: 0 <= i < j ==> tiles[i] == [answer[i]]
    {
      tiles[j] := [answer[j]];
      j := j + 1;
    }
  }

  /** The string the answer check builds: `str += tile.text()` over the tiles in order. */
  function Concat(tiles: seq<string>): string
  {
    if tiles == [] then "" else Concat(tiles[..|tiles| - 1]) + tiles[|tiles| - 1]
  }

  /** One more tile appends its text. */
  lemma ConcatSnoc(t: seq<string>, y: string)
    ensures Concat(t + [y]) == Concat(t) + y
  {
    assert (t + [y])[..|t|] == t;
  }

  /** Concatenation distributes over joining two tile lists. */
  lemma {:induction false} ConcatAppend(a: seq<string>, b: seq<string>)
    ensures Concat(a + b) == Concat(a) + Concat(b)
    decreases |b|
  {
    if b == [] {
      assert a + b == a;
    } else {
      var c, y := b[..|b| - 1], b[|b| - 1];
      assert a + b == (a + c) + [y];
      assert b == c + [y];
      ConcatAppend(a, c);
      ConcatSnoc(a + c, y);
      ConcatSnoc(c, y);
    }
  }

  /** Concatenating the tiles of an answer in their original order gives back the answer. */
  lemma {:induction false} ConcatTilesOf(answer: string)
    ensures Concat(TilesOf(answer)) == answer
    decreases |answer|
  {
    if answer != [] {
      var n := |answer|;
      assert TilesOf(answer)[..n - 1] == TilesOf(answer[..n - 1]);
      ConcatTilesOf(answer[..n - 1]);
      assert answer == answer[..n - 1] + [answer[n - 1]];
    }
  }

  /** Tiles of one character each are the tiles of their own concatenation. */
  lemma {:induction false} SingleCharTiles(tiles: seq<string>)
    requires forall i :: 0 <= i < |tiles| ==> |tiles[i]| == 1
    ensures tiles == TilesOf(Concat(tiles))
    decreases |tiles|
  {
    if tiles != [] {
      var n := |tiles|;
      var init := tiles[..n - 1];
      SingleCharTiles(init);
      var s := Concat(init);
      assert Concat(tiles) == s + tiles[n - 1];
      assert tiles[n - 1] == [tiles[n - 1][0]];
      assert TilesOf(s + tiles[n - 1]) == TilesOf(s) + [tiles[n - 1]];
      assert tiles == init + [tiles[n - 1]];
    }
  }

  /** The text of a tile list with one tile x in the middle. */
  lemma ConcatAround(p: seq<string>, x: string, q: seq<string>)
    ensures Concat(p + [x] + q) == Concat(p) + x + Concat(q)
  {
    ConcatAppend(p + [x], q);
    ConcatSnoc(p, x);
  }

  /** Taking one x out of p + [x] + q leaves the multiset of p + q. */
  lemma MultisetAround(p: seq<string>, x: string, q: seq<string>)
    ensures multiset(p + [x] + q) - multiset{x} == multiset(p + q)
  {
    assert multiset(p + [x] + q) == multiset(p + q) + multiset{x};
  }

  /** The last tile of a has a twin at some index k of b, and the rest of a
      is a reordering of b without that twin. */
  lemma MatchLast(a: seq<string>, b: seq<string>) returns (k: nat)
    requires a != [] && multiset(a) == multiset(b)
    ensures k < |b| && b[k] == a[|a| - 1]
    ensures multiset(a[..|a| - 1]) == multiset(b[..k] + b[k + 1..])
  {
    var init, x := a[..|a| - 1], a[|a| - 1];
    assert a == init + [x] + [];
    assert x in multiset(b);
    k :| 0 <= k < |b| && b[k] == x;
    var p, q := b[..k], b[k + 1..];
    assert b == p + [x] + q;
    MultisetAround(init, x, []);
    MultisetAround(p, x, q);
    assert init + [] == init;
  }

  /** Reordering the tiles does not change the multiset of their characters. */
  lemma {:induction false} ConcatPermutation(a: seq<string>, b: seq<string>)
    requires multiset(a) == multiset(b)
    ensures multiset(Concat(a)) == multiset(Concat(b))
    decreases |a|
  {
    if a == [] {
      assert |b| == |multiset(b)| == 0;
    } else {
      var init, x := a[..|a| - 1], a[|a| - 1];
      var k := MatchLast(a, b);
      var p, q := b[..k], b[k + 1..];
      ConcatPermutation(init, p + q);
      assert b == p + [x] + q;
      ConcatAround(p, x, q);
      ConcatAppend(p, q);
      assert a == init + [x];
      ConcatSnoc(init, x);
      calc {
        multiset(Concat(a));
        multiset(Concat(init)) + multiset(x);
        multiset(Concat(p + q)) + multiset(x);
        multiset(Concat(p)) + multiset(x) + multiset(Concat(q));
        multiset(Concat(b));
      }
    }
  }

  /** The tiles of a block, shuffled, hold exactly the characters of its answer. */
  lemma TilesKeepLetters(answer: string, rs: seq<real>)
    requires |rs| == |answer| && UnitDraws(rs)
    ensures multiset(Concat(Shuffled(TilesOf(answer), rs))) == multiset(answer)
    ensures |Shuffled(TilesOf(answer), rs)| == |answer|
  {
    ShuffleStepsPermute(TilesOf(answer), SwapPositions(rs, |answer|), |answer|);
    ConcatPermutation(Shuffled(TilesOf(answer), rs), TilesOf(answer));
    ConcatTilesOf(answer);
  }

  /** The colour classes of a block's tile area: imgs_answers_gray, _green and _red. */
  datatype Colour = Gray | Green | Red

  /** checkResult: the colour a block gets once its tiles are concatenated and compared with its answer. */
  function Checked(tiles: seq<string>, answer: string): (c: Colour)
    ensures c != Gray
  {
    if Concat(tiles) == answer then Green else Red
  }

  /** Tiles in the answer's own order are always judged correct. */
  lemma InOrderIsGreen(answer: string)
    ensures Checked(TilesOf(answer), answer) == Green
  {
    ConcatTilesOf(answer);
  }

  /** For one-character tiles, the check is green exactly when the tiles spell the answer, tile by tile. */
  lemma GreenIffSpelled(tiles: seq<string>, answer: string)
    requires forall i :: 0 <= i < |tiles| ==> |tiles[i]| == 1
    ensures Checked(tiles, answer) == Green <==> tiles == TilesOf(answer)
  {
    SingleCharTiles(tiles);
    ConcatTilesOf(answer);
  }
}
