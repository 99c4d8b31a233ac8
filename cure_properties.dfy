/** What the garbage collector guarantees: it deletes only stored files that no
    page references, keeps a widget whose thumbnail is missing, and records the
    ids of pages and directories the way QMap::insert dictates. */
module CureProperties {
  import opened Wrappers
  import opened Strings
  import opened QMaps
  import opened SymDiffs
  import opened ForeignIds
  import opened ForeignHandler

  /** Whatever the deletion loop makes disappear lies under a path it removed. */
  lemma {:induction false} DeletionsShrink(fs: set<string>, present: QMap, keys: seq<string>)
    ensures forall x :: x in fs && x !in Deletions(fs, present, keys).0 ==>
      exists p :: p in Deletions(fs, present, keys).1 && Under(x, p)
    decreases |keys|
  {
    if keys != [] {
      var init := keys[..|keys| - 1];
      DeletionsShrink(fs, present, init);
      var prev := Deletions(fs, present, init);
      var step := DeleteStep(prev.0, Value(present, keys[|keys| - 1]));
      assert Deletions(fs, present, keys) == (step.0, prev.1 + step.1);
      forall x | x in fs && x !in step.0
        ensures exists p :: p in prev.1 + step.1 && Under(x, p)
      {
        if x in prev.0 {
          var p :| p in step.1 && Under(x, p);
          assert p in prev.1 + step.1;
        } else {
          var p :| p in prev.1 && Under(x, p);
          assert p in prev.1 + step.1;
        }
      }
    }
  }

  /** Every path the loop removes belongs to a candidate that is on disk, and
      is that candidate's stored path or its thumbnail. */
  lemma {:induction false} DeletionsFromCandidates(fs: set<string>, present: QMap, keys: seq<string>)
    ensures forall p :: p in Deletions(fs, present, keys).1 ==>
      exists k :: k in keys && Value(present, k).Some? && IsOrThumbOf(p, Value(present, k).value)
    decreases |keys|
  {
    if keys != [] {
      var init := keys[..|keys| - 1];
      var key := keys[|keys| - 1];
      DeletionsFromCandidates(fs, present, init);
      var prev := Deletions(fs, present, init);
      var step := DeleteStep(prev.0, Value(present, key));
      forall p | p in prev.1 + step.1
        ensures exists k :: k in keys && Value(present, k).Some? && IsOrThumbOf(p, Value(present, k).value)
      {
        if p in prev.1 {
          var k :| k in init && Value(present, k).Some? && IsOrThumbOf(p, Value(present, k).value);
          assert k in keys;
        } else {
          assert key in keys;
        }
      }
    }
  }

  /** cure deletes only what no page references: every file that disappears
      lies under the stored path of an id that is on disk and absent from the
      referenced ids, or under that path's thumbnail. */
  lemma CureDeletesOnlyUnreferenced(fs: set<string>, dom: QMap, present: QMap)
    requires Ordered(dom) && Ordered(present)
    ensures var r := Deletions(fs, present, SymDiff(Keys(dom), Keys(present)));
      forall x :: x in fs && x !in r.0 ==> exists p :: Under(x, p) && Unreferenced(dom, present, p)
  {
    var keys := SymDiff(Keys(dom), Keys(present));
    var r := Deletions(fs, present, keys);
    DeletionsShrink(fs, present, keys);
    DeletionsFromCandidates(fs, present, keys);
    SymDiffSpec(Keys(dom), Keys(present));
    forall x | x in fs && x !in r.0 ensures exists p :: Under(x, p) && Unreferenced(dom, present, p) {
      var p :| p in r.1 && Under(x, p);
      var k :| k in keys && Value(present, k).Some? && IsOrThumbOf(p, Value(present, k).value);
      assert k in Keys(present) && k !in Keys(dom);
    }
  }

  /** The deletion loop only ever removes: after all the candidates the file
      system holds no more than after the first j of them. */
  lemma {:induction false} DeletionsMonotone(fs: set<string>, present: QMap, keys: seq<string>, j: nat)
    requires j <= |keys|
    ensures Deletions(fs, present, keys).0 <= Deletions(fs, present, keys[..j]).0
    decreases |keys|
  {
    if j < |keys| {
      var init := keys[..|keys| - 1];
      DeletionsMonotone(fs, present, init, j);
      assert init[..j] == keys[..j];
    } else {
      assert keys[..j] == keys;
    }
  }

  /** A candidate whose turn comes while it can be deleted (on disk, and for a
      widget with its thumbnail still there) leaves nothing under its stored
      path, or under the widget's thumbnail, once the loop is over. */
  lemma DeletionsRemove(fs: set<string>, present: QMap, keys: seq<string>, i: nat)
    requires i < |keys|
    requires var delPath := Value(present, keys[i]);
      delPath.Some? &&
      !(EndsWith(delPath.value, Wgt) && ThumbFileNameFrom(delPath.value).value !in Deletions(fs, present, keys[..i]).0)
    ensures var p := Value(present, keys[i]).value;
      forall x :: x in Deletions(fs, present, keys).0 ==>
        !Under(x, p) && (EndsWith(p, Wgt) ==> !Under(x, ThumbFileNameFrom(p).value))
  {
    var upto := keys[..i + 1];
    assert upto[..i] == keys[..i] && upto[i] == keys[i];
    DeletionsMonotone(fs, present, keys, i + 1);
  }

  /** Removing candidate path v (and, for a widget, its thumbnail) leaves x in place. */
  predicate Spares(v: string, x: string)
  {
    !Under(x, v) && (EndsWith(v, Wgt) ==> !Under(x, ThumbFileNameFrom(v).value))
  }

  /** A widget's thumbnail is on disk and no other unreferenced file's removal
      takes it away first, so the widget's turn finds it. */
  predicate ThumbAvailable(fs: set<string>, dom: QMap, present: QMap, k: string)
    requires k in Keys(present)
  {
    var p := Value(present, k).value;
    EndsWith(p, Wgt) ==>
      ThumbFileNameFrom(p).value in fs &&
      forall k' :: k' in Keys(present) && k' !in Keys(dom) && k' != k ==> Spares(Value(present, k').value, ThumbFileNameFrom(p).value)
  }

  /** cure deletes every unreferenced file: for an id that is on disk and
      referenced by no page, nothing under its stored path is left, and for a
      widget nothing under its thumbnail either, unless the widget's thumbnail
      is missing when its turn comes (the case WidgetWithoutThumbKept keeps). */
  lemma CureDeletesUnreferenced(fs: set<string>, dom: QMap, present: QMap, k: string)
    requires Ordered(dom) && Ordered(present)
    requires k in Keys(present) && k !in Keys(dom)
    requires ThumbAvailable(fs, dom, present, k)
    ensures var p := Value(present, k).value;
      forall x :: x in Deletions(fs, present, SymDiff(Keys(dom), Keys(present))).0 ==>
        !Under(x, p) && (EndsWith(p, Wgt) ==> !Under(x, ThumbFileNameFrom(p).value))
  {
    var keys := SymDiff(Keys(dom), Keys(present));
    SymDiffSpec(Keys(dom), Keys(present));
    var i :| 0 <= i < |keys| && keys[i] == k;
    var p := Value(present, k).value;
    if EndsWith(p, Wgt) {
      forall j | 0 <= j < i ensures keys[..i][j] != k {
        assert Less(keys[j], keys[i]);
        LessIrreflexive(k);
      }
      ThumbReachesTurn(fs, dom, present, keys, i);
    }
    DeletionsRemove(fs, present, keys, i);
  }

  /** Under ThumbAvailable, the thumbnail of candidate i is still on disk when
      the loop reaches it: the candidates before it are other unreferenced ids. */
  lemma ThumbReachesTurn(fs: set<string>, dom: QMap, present: QMap, keys: seq<string>, i: nat)
    requires i < |keys| && keys[i] in Keys(present) && ThumbAvailable(fs, dom, present, keys[i])
    requires EndsWith(Value(present, keys[i]).value, Wgt)
    requires keys[i] !in keys[..i]
    requires forall x :: x in keys[..i] && x in Keys(present) ==> x !in Keys(dom)
    ensures ThumbFileNameFrom(Value(present, keys[i]).value).value in Deletions(fs, present, keys[..i]).0
  {
    var k := keys[i];
    var thumb := ThumbFileNameFrom(Value(present, k).value).value;
    var before := keys[..i];
    var prev := Deletions(fs, present, before);
    DeletionsShrink(fs, present, before);
    DeletionsFromCandidates(fs, present, before);
    forall q | q in prev.1 ensures !Under(thumb, q) {
      var k' :| k' in before && Value(present, k').Some? && IsOrThumbOf(q, Value(present, k').value);
      assert k' in Keys(present) && k' != k;
      assert k' !in Keys(dom);
      var v := Value(present, k').value;
      assert Spares(v, thumb);
      assert q == v || q == ThumbFileNameFrom(v).value;
    }
  }

  /** A widget whose thumbnail is not on disk is not deleted: its stored path
      never appears among the removed paths. */
  lemma {:induction false} WidgetWithoutThumbKept(fs: set<string>, present: QMap, keys: seq<string>, path: string)
    requires EndsWith(path, Wgt) && ThumbFileNameFrom(path).value !in fs
    ensures path !in Deletions(fs, present, keys).1
    decreases |keys|
  {
    if keys != [] {
      var init := keys[..|keys| - 1];
      WidgetWithoutThumbKept(fs, present, init, path);
      DeletionsShrink(fs, present, init);
      var prev := Deletions(fs, present, init);
      var delPath := Value(present, keys[|keys| - 1]);
      var step := DeleteStep(prev.0, delPath);
      if delPath.Some? && delPath.value == path {
        assert step == (prev.0, []);
      } else {
        forall p | p in step.1 ensures p != path {
          if p != delPath.value {
            WidgetIsNotThumbnail(path, p);
          }
        }
      }
      assert path !in prev.1 + step.1;
    }
  }

  /** A widget path is never a thumbnail path: one ends in ".wgt", the other in ".png". */
  lemma WidgetIsNotThumbnail(widget: string, thumb: string)
    requires EndsWith(widget, Wgt) && EndsWith(thumb, Png)
    ensures widget != thumb
  {
    assert widget[|widget| - 3] == Wgt[1] == 'w';
    assert thumb[|thumb| - 3] == Png[1] == 'p';
  }

  /** Every directory a path on disk lies in is on disk too, as on a real file system. */
  predicate ParentClosed(fs: set<string>)
  {
    forall x, i :: x in fs && 0 < i < |x| && x[i] == '/' ==> x[..i] in fs
  }

  /** rm_r of a path that does not exist removes nothing: on a file system that
      holds every parent directory, nothing lies under a missing path. */
  lemma MissingPathRemovesNothing(fs: set<string>, p: string)
    requires ParentClosed(fs) && p != [] && p !in fs
    ensures RemoveTree(fs, p) == fs
  {
    forall x | x in fs && Under(x, p) ensures x[..|p|] in fs {
      assert x[|p|] == (p + "/")[|p|];
    }
  }

  /** A referenced-only candidate (an id no file on disk carries) removes nothing. */
  lemma AbsentCandidateRemovesNothing(fs: set<string>, present: QMap, key: string)
    requires key !in Keys(present)
    ensures DeleteStep(fs, Value(present, key)) == (fs, [])
  {
  }

  // ---------------------------------------------------------------------------
  // fitIdsFromDir

  /** Of several entries that carry the same id, the last one listed wins. */
  lemma {:induction false} LaterEntryWins(m: QMap, fs: seq<FileEntry>, i: nat, uid: string)
    requires Ordered(m) && i < |fs| && StrIdFrom(fs[i].fileName) == Some(uid)
    requires forall j :: i < j < |fs| ==> StrIdFrom(fs[j].fileName) != Some(uid)
    ensures Value(DirIds(m, fs), uid) == Some(fs[i].absolutePath)
    decreases |fs|
  {
    if i < |fs| - 1 {
      LaterEntryWins(m, fs[..|fs| - 1], i, uid);
    }
  }

  /** The id each entry's name carries, entry by entry. */
  function IdsOf(fs: seq<FileEntry>): (ids: seq<Option<string>>)
    ensures |ids| == |fs|
  {
    seq(|fs|, i requires 0 <= i < |fs| => StrIdFrom(fs[i].fileName))
  }

  /** Some entry of the listing has a name that carries id k. */
  predicate Names(fs: seq<FileEntry>, k: string)
  {
    Some(k) in IdsOf(fs)
  }

  /** A listing names k when its first entries do or its last entry does. */
  lemma NamesSnoc(fs: seq<FileEntry>, k: string)
    requires fs != []
    ensures Names(fs, k) <==> Names(fs[..|fs| - 1], k) || StrIdFrom(fs[|fs| - 1].fileName) == Some(k)
  {
    var init := fs[..|fs| - 1];
    assert IdsOf(fs) == IdsOf(init) + [StrIdFrom(fs[|fs| - 1].fileName)];
  }

  /** The present ids are the ids already there plus exactly the ids the listed names carry. */
  lemma {:induction false} DirIdsKeys(m: QMap, fs: seq<FileEntry>, k: string)
    requires Ordered(m)
    ensures Value(DirIds(m, fs), k).Some? <==> Value(m, k).Some? || Names(fs, k)
    decreases |fs|
  {
    if fs != [] {
      DirIdsKeys(m, fs[..|fs| - 1], k);
      NamesSnoc(fs, k);
    }
  }

  /** Some scan directory among the first k exists and lists a name that carries id. */
  predicate ListedIn(dir: string, listing: map<string, seq<FileEntry>>, k: nat, id: string)
  {
    exists j :: 0 <= j < k && j < |ScanDirs| && ListsIn(dir, listing, j, id)
  }

  /** Scan directory j exists and lists a name that carries id. */
  predicate ListsIn(dir: string, listing: map<string, seq<FileEntry>>, j: nat, id: string)
    requires j < |ScanDirs|
  {
    ScanPath(dir, ScanDirs[j]) in listing && Names(listing[ScanPath(dir, ScanDirs[j])], id)
  }

  /** The first k directories list id when the first k - 1 do or the k-th does. */
  lemma ListedInSnoc(dir: string, listing: map<string, seq<FileEntry>>, k: nat, id: string)
    requires 0 < k <= |ScanDirs|
    ensures ListedIn(dir, listing, k, id) <==> ListedIn(dir, listing, k - 1, id) || ListsIn(dir, listing, k - 1, id)
  {
    if ListedIn(dir, listing, k, id) {
      var j :| 0 <= j < k && j < |ScanDirs| && ListsIn(dir, listing, j, id);
      if j < k - 1 {
        assert ListedIn(dir, listing, k - 1, id);
      }
    }
    if ListedIn(dir, listing, k - 1, id) {
      var j :| 0 <= j < k - 1 && j < |ScanDirs| && ListsIn(dir, listing, j, id);
      assert ListedIn(dir, listing, k, id);
    }
    if ListsIn(dir, listing, k - 1, id) {
      assert ListedIn(dir, listing, k, id);
    }
  }

  /** fitIdsFromFileSystem adds exactly the ids that the names in the existing
      scan directories carry: a directory that does not exist contributes nothing. */
  lemma {:induction false} FileSystemIdsKeys(m: QMap, dir: string, listing: map<string, seq<FileEntry>>, k: nat, id: string)
    requires Ordered(m) && k <= |ScanDirs|
    ensures Value(FileSystemIds(m, dir, listing, k), id).Some? <==> Value(m, id).Some? || ListedIn(dir, listing, k, id)
    decreases k
  {
    if k > 0 {
      FileSystemIdsKeys(m, dir, listing, k - 1, id);
      var prev := FileSystemIds(m, dir, listing, k - 1);
      var path := ScanPath(dir, ScanDirs[k - 1]);
      if path in listing {
        DirIdsKeys(prev, listing[path], id);
      }
      ListedInSnoc(dir, listing, k, id);
    }
  }

  // ---------------------------------------------------------------------------
  // teacherGuideToContainer

  /** A media child whose path carries no id ends the scan: the children
      after it are never read, and the walk up to it ends too. */
  lemma {:induction false} GuideStopsAtIdless(m: QMap, media: seq<Element>, i: nat)
    requires Ordered(m) && i < |media|
    requires GuideTerminates(media)
    requires AttrRelativePath in media[i].attributes && StrIdFrom(media[i].attributes[AttrRelativePath]).None?
    ensures GuideTerminates(media[..i]) && GuideRefs(m, media) == GuideRefs(m, media[..i])
    decreases i
  {
    if i == 0 {
      assert media[..0] == [];
    } else {
      var path := media[0].attributes[AttrRelativePath];
      assert media[..i][0] == media[0];
      assert media[..i][1..] == media[1..][..i - 1];
      match StrIdFrom(path)
      case None =>
      case Some(uid) =>
        assert media[1..][i - 1] == media[i];
        GuideStopsAtIdless(Insert(m, uid, path), media[1..], i - 1);
    }
  }

  /** A first media child whose path carries no id ends the walk before any
      later child is read, even one without a relativePath. */
  lemma IdlessFirstEndsGuide(m: QMap, first: Element, rest: seq<Element>)
    requires Ordered(m)
    requires AttrRelativePath in first.attributes && StrIdFrom(first.attributes[AttrRelativePath]).None?
    ensures GuideTerminates([first] + rest) && GuideRefs(m, [first] + rest) == m
  {
    assert ([first] + rest)[0] == first;
  }

  /** A media child read by the scan ends up recorded unless a later child carries the same id. */
  lemma {:induction false} GuideRecords(m: QMap, media: seq<Element>, i: nat, uid: string)
    requires Ordered(m) && i < |media|
    requires GuideTerminates(media)
    requires forall j :: 0 <= j < i ==> HasId(media[j])
    requires AttrRelativePath in media[i].attributes && StrIdFrom(media[i].attributes[AttrRelativePath]) == Some(uid)
    requires forall j :: i < j < |media| ==> !Carries(media[j], AttrRelativePath, uid)
    ensures Value(GuideRefs(m, media), uid) == Some(media[i].attributes[AttrRelativePath])
    decreases |media|
  {
    var path := media[0].attributes[AttrRelativePath];
    assert StrIdFrom(path).Some? by {
      if i > 0 {
        assert HasId(media[0]);
      }
    }
    var id := StrIdFrom(path).value;
    var rest := media[1..];
    var m' := Insert(m, id, path);
    assert GuideRefs(m, media) == GuideRefs(m', rest);
    forall j | 0 <= j < |rest| ensures rest[j] == media[j + 1] {
    }
    if i == 0 {
      GuideUntouched(m', rest, uid);
    } else {
      GuideRecords(m', rest, i - 1, uid);
    }
  }

  /** The scan never changes the value of an id that no remaining child carries. */
  lemma {:induction false} GuideUntouched(m: QMap, media: seq<Element>, uid: string)
    requires Ordered(m)
    requires GuideTerminates(media)
    requires forall j :: 0 <= j < |media| ==> !Carries(media[j], AttrRelativePath, uid)
    ensures Value(GuideRefs(m, media), uid) == Value(m, uid)
    decreases |media|
  {
    if media != [] {
      var path := media[0].attributes[AttrRelativePath];
      match StrIdFrom(path)
      case None =>
      case Some(id) =>
        forall j | 0 <= j < |media| - 1 ensures media[1..][j] == media[j + 1] {
        }
        GuideUntouched(Insert(m, id, path), media[1..], uid);
    }
  }

  // ---------------------------------------------------------------------------
  // invokeFromText

  /** An image, audio or video element whose xlink:href carries an id records it. */
  lemma MediaRecorded(m: QMap, e: Element)
    requires Ordered(m)
    requires e.tag in {TagVideo, TagAudio, TagImage}
    requires AttrHref in e.attributes && StrIdFrom(e.attributes[AttrHref]).Some?
    ensures Value(InvokeRefs(m, e.tag, e), StrIdFrom(e.attributes[AttrHref]).value) == Some(e.attributes[AttrHref])
  {
  }

  /** A text box never adds a reference, whatever its ub:src says. */
  lemma TextBoxIgnored(m: QMap, e: Element)
    requires Ordered(m)
    requires e.tag == TagForeignObject && AttrType in e.attributes && e.attributes[AttrType] == TypeText
    ensures InvokeRefs(m, e.tag, e) == m
  {
  }
}
