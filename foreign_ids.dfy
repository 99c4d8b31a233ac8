/** The two string functions of the foreign-object garbage collector: the
    `{...}` identifier a stored file's path carries, and the thumbnail path
    that goes with a widget bundle. */
module ForeignIds {
  import opened Wrappers
  import opened Strings

  const Wgt: string := ".wgt"
  const Png: string := ".png"
  const Braces: set<char> := {'{', '}'}

  /** The pattern `\{.(?!.*\{).*\}` can start matching at p: a `{` at p, one
      more character of any kind, no `{` anywhere after that, and some `}`
      after that. */
  predicate MatchesAt(s: string, p: nat)
  {
    p + 2 <= |s| && s[p] == '{' && '{' !in s[p + 2..] && '}' in s[p + 2..]
  }

  /** The leftmost position at or after `from` where the pattern matches, as QRegExp::indexIn scans. */
  function FirstMatch(s: string, from: nat): (p: Option<nat>)
    ensures p.Some? ==> from <= p.value && MatchesAt(s, p.value)
    decreases |s| - from
  {
    if from + 2 > |s| then None
    else if MatchesAt(s, from) then Some(from)
    else FirstMatch(s, from + 1)
  }

  /** The match FirstMatch finds is the leftmost one: the pattern matches
      nowhere between `from` and it, and nowhere at all when it finds none. */
  lemma {:induction false} FirstMatchSpec(s: string, from: nat)
    ensures FirstMatch(s, from).Some? ==> forall j :: from <= j < FirstMatch(s, from).value ==> !MatchesAt(s, j)
    ensures FirstMatch(s, from).None? ==> forall j :: from <= j ==> !MatchesAt(s, j)
    decreases |s| - from
  {
    if from + 2 > |s| {
      forall j | from <= j ensures !MatchesAt(s, j) {
      }
    } else if !MatchesAt(s, from) {
      assert FirstMatch(s, from) == FirstMatch(s, from + 1);
      FirstMatchSpec(s, from + 1);
    }
  }

  /** The index of the last occurrence of c in s. */
  function LastIndexOf(s: string, c: char): (k: Option<nat>)
    ensures k.None? <==> c !in s
    ensures k.Some? ==> k.value < |s| && s[k.value] == c && c !in s[k.value + 1..]
    ensures forall i :: 0 <= i < |s| && s[i] == c ==> k.Some? && i <= k.value
  {
    if s == [] then None
    else if s[|s| - 1] == c then Some(|s| - 1)
    else
      var init := s[..|s| - 1];
      assert s == init + [s[|s| - 1]];
      match LastIndexOf(init, c)
      case None => None
      case Some(k) =>
        assert s[k + 1..] == init[k + 1..] + [s[|s| - 1]];
        Some(k)
  }

  /** strIdFrom: null for an empty path or a path the pattern does not match;
      otherwise the whole match. The match starts at the leftmost position the
      pattern accepts and, the trailing `.*\}` being greedy, runs to the last
      `}` of the path. */
  function StrIdFrom(path: string): (id: Option<string>)
    ensures id.None? <==> FirstMatch(path, 0).None?
    ensures id.Some? ==> 3 <= |id.value| <= |path| && id.value[0] == '{' && id.value[|id.value| - 1] == '}'
  {
    if path == [] then None
    else match FirstMatch(path, 0)
      case None => None
      case Some(p) =>
        var q := MatchEnd(path, p);
        Some(path[p..q + 1])
  }

  /** What strIdFrom returns, in terms of the pattern: nothing exactly when the
      pattern matches nowhere; otherwise the text from the leftmost match to the
      last `}` of the path, with no `{` after its second character. */
  lemma StrIdFromSpec(path: string)
    ensures StrIdFrom(path).None? <==> forall p :: !MatchesAt(path, p)
    ensures StrIdFrom(path).Some? ==> FirstMatch(path, 0).Some?
    ensures StrIdFrom(path).Some? ==>
      var id, p := StrIdFrom(path).value, FirstMatch(path, 0).value;
      OccursAt(path, id, p) && '}' !in path[p + |id|..] && '{' !in id[2..]
  {
    FirstMatchSpec(path, 0);
    match FirstMatch(path, 0)
    case None =>
    case Some(p) =>
      var q := MatchEnd(path, p);
      var id := path[p..q + 1];
      assert StrIdFrom(path) == Some(id);
      assert id[2..] == path[p + 2..q + 1] && path[p + |id|..] == path[q + 1..];
  }

  /** Where a match starting at p ends: the last `}` of the path, which lies past p + 1. */
  function MatchEnd(path: string, p: nat): (q: nat)
    requires MatchesAt(path, p)
    ensures p + 2 <= q < |path| && path[q] == '}' && '}' !in path[q + 1..]
    ensures '{' !in path[p + 2..q + 1]
    ensures forall i :: q < i < |path| ==> path[i] != '}'
  {
    var k :| p + 2 <= k < |path| && path[k] == '}';
    var q := LastIndexOf(path, '}').value;
    assert k <= q;
    assert path[p + 2..q + 1] == path[p + 2..][..q - 1 - p];
    q
  }

  /** A path of the usual shape, a prefix without braces, `{`, a braceless
      uuid, `}` and a braceless suffix, yields exactly the braced uuid. */
  lemma StrIdOfStoredPath(prefix: string, uuid: string, suffix: string)
    requires '{' !in prefix && '{' !in uuid && '}' !in uuid && uuid != []
    requires '{' !in suffix && '}' !in suffix
    ensures StrIdFrom(prefix + "{" + uuid + "}" + suffix) == Some("{" + uuid + "}")
  {
    var id := "{" + uuid + "}";
    var s := prefix + id + suffix;
    assert s == prefix + "{" + uuid + "}" + suffix;
    var p, e := |prefix|, |prefix| + |id|;
    StoredPathMatch(prefix, uuid, suffix);
    MiddleOf(prefix, id, suffix);
    assert s[e - 1] == id[|id| - 1] == '}';
    forall i | e - 1 < i < |s| ensures s[i] != '}' {
      assert s[i] == suffix[i - e];
    }
    LastBraceEnds(s, p, e - 1);
  }

  /** The middle part of a + b + c, cut out by position. */
  lemma MiddleOf(a: string, b: string, c: string)
    ensures (a + b + c)[|a|..|a| + |b|] == b
  {
  }

  /** A `}` with none after it is where a match starting at p ends. */
  lemma LastBraceEnds(s: string, p: nat, q: nat)
    requires MatchesAt(s, p) && p + 2 <= q < |s| && s[q] == '}'
    requires forall i :: q < i < |s| ==> s[i] != '}'
    ensures MatchEnd(s, p) == q
  {
    var r := MatchEnd(s, p);
    if r < q {
      assert false;
    }
  }

  /** A match with no match before it is the one FirstMatch finds. */
  lemma FirstMatchAt(s: string, p: nat)
    requires MatchesAt(s, p)
    requires forall j :: 0 <= j < p ==> !MatchesAt(s, j)
    ensures FirstMatch(s, 0) == Some(p)
  {
    FirstMatchSpec(s, 0);
  }

  /** Dropping a prefix and then k more elements leaves the tail after k. */
  lemma DropPrefix(a: string, b: string, k: nat)
    requires k <= |b|
    ensures (a + b)[|a| + k..] == b[k..]
  {
  }

  /** Dropping k elements of b + c, k within b, drops them from b. */
  lemma DropThenAppend(b: string, c: string, k: nat)
    requires k <= |b|
    ensures (b + c)[k..] == b[k..] + c
  {
  }

  /** In such a path the pattern matches at the brace. */
  lemma MatchesAtBrace(prefix: string, uuid: string, suffix: string)
    requires '{' !in uuid && '}' !in uuid && uuid != []
    requires '{' !in suffix
    ensures MatchesAt(prefix + ("{" + uuid + "}") + suffix, |prefix|)
  {
    var id := "{" + uuid + "}";
    var s := prefix + id + suffix;
    var p := |prefix|;
    var t := uuid[1..] + "}" + suffix;
    assert s[p + 2..] == t by {
      assert s == prefix + (id + suffix);
      DropPrefix(prefix, id + suffix, 2);
      DropThenAppend(id, suffix, 2);
      assert id == "{" + (uuid + "}");
      DropPrefix("{", uuid + "}", 1);
      DropThenAppend(uuid, "}", 1);
    }
    assert '{' !in uuid[1..] by {
      assert forall c :: c in uuid[1..] ==> c in uuid;
    }
    assert t[|uuid| - 1] == '}';
  }

  /** The pattern matches nowhere inside a braceless prefix. */
  lemma NoMatchInPrefix(prefix: string, mid: string, suffix: string)
    requires '{' !in prefix
    ensures forall j :: 0 <= j < |prefix| ==> !MatchesAt(prefix + mid + suffix, j)
  {
    forall j | 0 <= j < |prefix| ensures !MatchesAt(prefix + mid + suffix, j) {
      assert (prefix + mid + suffix)[j] == prefix[j];
    }
  }

  /** The match in such a path starts at its brace. */
  lemma StoredPathMatch(prefix: string, uuid: string, suffix: string)
    requires '{' !in prefix && '{' !in uuid && '}' !in uuid && uuid != []
    requires '{' !in suffix && '}' !in suffix
    ensures FirstMatch(prefix + ("{" + uuid + "}") + suffix, 0) == Some(|prefix|)
  {
    var s := prefix + ("{" + uuid + "}") + suffix;
    MatchesAtBrace(prefix, uuid, suffix);
    NoMatchInPrefix(prefix, "{" + uuid + "}", suffix);
    FirstMatchAt(s, |prefix|);
  }

  /** An id is its own id: extracting again gives back the same string. */
  lemma StrIdIdempotent(path: string)
    requires StrIdFrom(path).Some?
    ensures StrIdFrom(StrIdFrom(path).value) == StrIdFrom(path)
  {
    StrIdFromSpec(path);
    var id := StrIdFrom(path).value;
    assert id[|id| - 1] in id[2..];
    assert MatchesAt(id, 0);
    assert FirstMatch(id, 0) == Some(0);
    assert MatchEnd(id, 0) == |id| - 1;
    assert id[0..|id|] == id;
  }

  /** thumbFileNameFrom: null for an empty path; otherwise the path with every
      brace removed, then every ".wgt" replaced by ".png". */
  function ThumbFileNameFrom(path: string): (t: Option<string>)
    ensures t.None? <==> path == []
    ensures t.Some? && EndsWith(path, Wgt) ==> EndsWith(t.value, Png)
  {
    if path == [] then None
    else
      WidgetThumbSuffix(path);
      Some(ReplaceAll(Without(path, Braces), Wgt, Png))
  }

  /** A thumbnail path holds no brace and no ".wgt". */
  lemma ThumbFileNameSpec(path: string)
    requires path != []
    ensures '{' !in ThumbFileNameFrom(path).value && '}' !in ThumbFileNameFrom(path).value
    ensures forall j :: !OccursAt(ThumbFileNameFrom(path).value, Wgt, j)
  {
    var bare := Without(path, Braces);
    ReplaceAllAbsent(bare, Wgt, Png, '{');
    ReplaceAllAbsent(bare, Wgt, Png, '}');
    NoWgtLeft(bare);
  }

  /** The thumbnail of a stored widget `dir{id}.wgt` is `dirid.png`: the path
      is kept, only its braces go and its ".wgt" becomes ".png". */
  lemma ThumbOfStoredWidget(dir: string, id: string)
    requires forall c :: c in Braces ==> c !in dir && c !in id
    requires forall j :: !OccursAt(dir + id, Wgt, j)
    ensures ThumbFileNameFrom(dir + "{" + id + "}" + Wgt) == Some(dir + id + Png)
  {
    var path := dir + "{" + id + "}" + Wgt;
    BracedBare(dir, id);
    WidgetBare(dir + "{" + id + "}", path);
    ReplaceWgtSuffix(dir + id);
    ReplaceAllNone(dir + id, Wgt, Png);
  }

  /** Removing the braces of `dir{id}` leaves `dirid` when neither part holds a brace. */
  lemma BracedBare(dir: string, id: string)
    requires forall c :: c in Braces ==> c !in dir && c !in id
    ensures Without(dir + "{" + id + "}", Braces) == dir + id
  {
    var open, close := "{", "}";
    assert Without(open, Braces) == [] && Without(close, Braces) == [];
    WithoutNoneOf(dir, Braces);
    WithoutNoneOf(id, Braces);
    WithoutFour(dir, open, id, close, Braces);
  }

  /** Removing characters from four joined strings removes them from each. */
  lemma WithoutFour(a: string, b: string, c: string, d: string, cs: set<char>)
    ensures Without(a + b + c + d, cs) == Without(a, cs) + Without(b, cs) + Without(c, cs) + Without(d, cs)
  {
    WithoutAppend(a + b + c, d, cs);
    WithoutAppend(a + b, c, cs);
    WithoutAppend(a, b, cs);
  }

  /** A widget path's thumbnail ends in ".png". */
  lemma WidgetThumbSuffix(path: string)
    ensures EndsWith(path, Wgt) ==> EndsWith(ReplaceAll(Without(path, Braces), Wgt, Png), Png)
  {
    if EndsWith(path, Wgt) {
      var stem := path[..|path| - |Wgt|];
      WidgetBare(stem, path);
      var bare := Without(stem, Braces);
      ReplaceWgtSuffix(bare);
      var u := ReplaceAll(bare, Wgt, Png);
      assert (u + Png)[|u + Png| - |Png|..] == Png;
    }
  }

  /** Removing the braces of a widget path keeps its ".wgt" suffix. */
  lemma WidgetBare(stem: string, path: string)
    requires path == stem + Wgt
    ensures Without(path, Braces) == Without(stem, Braces) + Wgt
  {
    WithoutAppend(stem, Wgt, Braces);
    WgtBraceless();
    WithoutNoneOf(Wgt, Braces);
  }

  /** ".wgt" holds no brace. */
  lemma WgtBraceless()
    ensures forall c :: c in Braces ==> c !in Wgt
  {
    forall c | c in Braces ensures c !in Wgt {
      assert Wgt == ['.', 'w', 'g', 't'];
    }
  }

  /** A replaced string that begins with a dot-free w began with w before replacing. */
  lemma {:induction false} DotFreePrefix(s: string, w: string)
    requires '.' !in w
    ensures |w| <= |ReplaceAll(s, Wgt, Png)| && ReplaceAll(s, Wgt, Png)[..|w|] == w ==>
      |w| <= |s| && s[..|w|] == w
    decreases |s|
  {
    var r := ReplaceAll(s, Wgt, Png);
    if w != [] && |s| >= |Wgt| && |w| <= |r| {
      if s[..|Wgt|] == Wgt {
        assert r[..|w|][0] == '.' != w[0];
      } else {
        var rest := ReplaceAll(s[1..], Wgt, Png);
        assert r == [s[0]] + rest;
        DotFreePrefix(s[1..], w[1..]);
        if r[..|w|] == w {
          assert rest[..|w| - 1] == w[1..];
          assert s[..|w|] == [s[0]] + s[1..][..|w| - 1];
        }
      }
    }
  }

  /** After replacing, no ".wgt" is left anywhere: ".png" cannot combine with
      its neighbours into a new ".wgt". */
  lemma {:induction false} NoWgtLeft(s: string)
    ensures forall j :: !OccursAt(ReplaceAll(s, Wgt, Png), Wgt, j)
    decreases |s|
  {
    var r := ReplaceAll(s, Wgt, Png);
    if |s| < |Wgt| {
      forall j: nat ensures !OccursAt(r, Wgt, j) {
      }
    } else if s[..|Wgt|] == Wgt {
      var rest := ReplaceAll(s[|Wgt|..], Wgt, Png);
      NoWgtLeft(s[|Wgt|..]);
      assert r == Png + rest;
      forall j: nat ensures !OccursAt(r, Wgt, j) {
        if j + |Wgt| <= |r| {
          if j < |Png| {
            assert r[j..j + |Wgt|][0] == Png[j] != '.' || r[j..j + |Wgt|][1] == Png[1] != 'w';
          } else {
            assert r[j..j + |Wgt|] == rest[j - |Png|..j - |Png| + |Wgt|];
            assert !OccursAt(rest, Wgt, j - |Png|);
          }
        }
      }
    } else {
      var rest := ReplaceAll(s[1..], Wgt, Png);
      NoWgtLeft(s[1..]);
      assert r == [s[0]] + rest;
      forall j: nat ensures !OccursAt(r, Wgt, j) {
        if j + |Wgt| > |r| {
        } else if j == 0 {
          assert Wgt == ['.'] + "wgt";
          assert r[0..|Wgt|][0] == s[0];
          if s[0] == '.' {
            DotFreePrefix(s[1..], "wgt");
            assert s[..|Wgt|] == [s[0]] + s[1..][..3];
            assert rest[..3] != "wgt";
            assert r[0..|Wgt|][1..] == rest[..3] != Wgt[1..];
          }
        } else {
          assert r[j..j + |Wgt|] == rest[j - 1..j - 1 + |Wgt|];
          assert !OccursAt(rest, Wgt, j - 1);
        }
      }
    }
  }

  /** A trailing ".wgt" always becomes a trailing ".png": no earlier
      occurrence can overlap it, since no proper prefix of ".wgt" is also a
      suffix of it. */
  lemma {:induction false} ReplaceWgtSuffix(s: string)
    ensures ReplaceAll(s + Wgt, Wgt, Png) == ReplaceAll(s, Wgt, Png) + Png
    decreases |s|
  {
    var t := s + Wgt;
    if s == [] {
      assert t == Wgt;
      assert t[|Wgt|..] == [];
    } else if |s| < |Wgt| {
      assert t[..|Wgt|] != Wgt by {
        assert t[|s|] == '.';
        assert Wgt[|s|] != '.';
      }
      assert t[1..] == s[1..] + Wgt;
      ReplaceWgtSuffix(s[1..]);
      assert ReplaceAll(s[1..], Wgt, Png) == s[1..];
    } else if s[..|Wgt|] == Wgt {
      assert t[..|Wgt|] == Wgt;
      assert t[|Wgt|..] == s[|Wgt|..] + Wgt;
      ReplaceWgtSuffix(s[|Wgt|..]);
    } else {
      assert t[..|Wgt|] == s[..|Wgt|];
      assert t[1..] == s[1..] + Wgt;
      ReplaceWgtSuffix(s[1..]);
    }
  }
}
