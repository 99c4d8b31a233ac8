/** Which ids the pages of a document reference, read off the page elements
    themselves, and the proof that the page scan of the garbage collector
    records exactly those ids on top of the ones it already held. */
module PageScan {
  import opened Wrappers
  import opened Strings
  import opened QMaps
  import opened SymDiffs
  import opened ForeignIds
  import opened ForeignHandler
  import opened CureProperties

  // ---------------------------------------------------------------------------
  // What a page references.

  /** Media child i carries k in its relativePath, and every media child
      before it carries some id, so the scan reaches it. */
  predicate GuideReferencesAt(media: seq<Element>, i: nat, k: string)
    requires i < |media|
  {
    Carries(media[i], AttrRelativePath, k) && forall j :: 0 <= j < i ==> HasId(media[j])
  }

  /** A teacher guide's media children reference k. */
  predicate GuideReferences(media: seq<Element>, k: string)
  {
    exists i: nat :: i < |media| && GuideReferencesAt(media, i, k)
  }

  /** Dropping a first media child that carries an id moves every reference one place down. */
  lemma GuideReferencesShift(media: seq<Element>, i: nat, k: string)
    requires 0 < |media| && HasId(media[0]) && i + 1 < |media|
    ensures GuideReferencesAt(media[1..], i, k) <==> GuideReferencesAt(media, i + 1, k)
  {
    var rest := media[1..];
    assert rest[i] == media[i + 1];
    if GuideReferencesAt(media[1..], i, k) {
      forall j | 0 <= j < i + 1 ensures HasId(media[j]) {
        if j > 0 {
          assert media[j] == rest[j - 1];
        }
      }
    }
    if GuideReferencesAt(media, i + 1, k) {
      forall j | 0 <= j < i ensures HasId(rest[j]) {
        assert rest[j] == media[j + 1];
      }
    }
  }

  /** A child of a page's root references k: a video, audio or image through
      its xlink:href, a foreign object other than a text box through its
      ub:src, a teacher guide through its media children. */
  predicate ElementReferences(e: Element, k: string)
  {
    (e.tag in {TagVideo, TagAudio, TagImage} && Carries(e, AttrHref, k))
    || (e.tag == TagForeignObject && Attribute(e, AttrType) != Some(TypeText) && Carries(e, AttrSrc, k))
    || (e.tag == TagTeacherGuide && GuideReferences(ChildrenTagged(e, TagMedia), k))
  }

  /** Some child of a page's root references k. */
  predicate PageReferences(es: seq<Element>, k: string)
  {
    exists i :: 0 <= i < |es| && ElementReferences(es[i], k)
  }

  /** Some page of the document references k. */
  predicate Referenced(pages: seq<Element>, k: string)
  {
    exists p :: 0 <= p < |pages| && PageReferences(pages[p].children, k)
  }

  // ---------------------------------------------------------------------------
  // The scan never loses an id it already holds.

  lemma AddRefKeeps(m: QMap, path: Option<string>, k: string)
    requires Ordered(m) && Value(m, k).Some?
    ensures Value(AddRef(m, path), k).Some?
  {
    if path.Some? && StrIdFrom(path.value) == Some(k) {
      assert Value(AddRef(m, path), StrIdFrom(path.value).value) == Some(path.value);
    }
  }

  lemma {:induction false} GuideKeeps(m: QMap, media: seq<Element>, k: string)
    requires Ordered(m) && Value(m, k).Some?
    requires GuideTerminates(media)
    ensures Value(GuideRefs(m, media), k).Some?
    decreases |media|
  {
    if media != [] {
      var path := media[0].attributes[AttrRelativePath];
      match StrIdFrom(path)
      case None =>
      case Some(uid) =>
        GuideKeeps(Insert(m, uid, path), media[1..], k);
    }
  }

  /** invokeFromText keeps every id already recorded. */
  lemma InvokeKeeps(m: QMap, e: Element, k: string)
    requires Ordered(m) && Value(m, k).Some?
    requires e.tag == TagTeacherGuide ==> GuideReadable(e)
    ensures Value(InvokeRefs(m, e.tag, e), k).Some?
  {
    if e.tag == TagVideo || e.tag == TagAudio || e.tag == TagImage {
      AddRefKeeps(m, Attribute(e, AttrHref), k);
    } else if e.tag == TagForeignObject {
      AddRefKeeps(m, Attribute(e, AttrSrc), k);
    } else if e.tag == TagTeacherGuide {
      GuideKeeps(m, ChildrenTagged(e, TagMedia), k);
    }
  }

  /** Reading a page keeps every id already recorded. */
  lemma {:induction false} PageKeeps(m: QMap, es: seq<Element>, k: string)
    requires Ordered(m) && Readable(es) && Value(m, k).Some?
    ensures Value(PageRefs(m, es), k).Some?
    decreases |es|
  {
    if es != [] {
      var init, last := es[..|es| - 1], es[|es| - 1];
      assert last in es;
      PageKeeps(m, init, k);
      InvokeKeeps(PageRefs(m, init), last, k);
    }
  }

  /** Reading the pages keeps every id already recorded. */
  lemma {:induction false} PagesKeeps(m: QMap, pages: seq<Element>, k: string)
    requires Ordered(m) && Value(m, k).Some?
    requires forall pg :: pg in pages ==> Readable(pg.children)
    ensures Value(PagesRefs(m, pages), k).Some?
    decreases |pages|
  {
    if pages != [] {
      var init, last := pages[..|pages| - 1], pages[|pages| - 1];
      assert last in pages;
      PagesKeeps(m, init, k);
      PageKeeps(PagesRefs(m, init), last.children, k);
    }
  }

  // ---------------------------------------------------------------------------
  // The scan records every referenced id.

  lemma {:induction false} GuideRecordsReferenced(m: QMap, media: seq<Element>, i: nat, k: string)
    requires Ordered(m) && i < |media| && GuideReferencesAt(media, i, k)
    requires GuideTerminates(media)
    ensures Value(GuideRefs(m, media), k).Some?
    decreases |media|
  {
    var path := media[0].attributes[AttrRelativePath];
    assert HasId(media[0]);
    var uid := StrIdFrom(path).value;
    var m' := Insert(m, uid, path);
    var rest := media[1..];
    assert GuideRefs(m, media) == GuideRefs(m', rest);
    if i == 0 {
      GuideKeeps(m', rest, k);
    } else {
      GuideReferencesShift(media, i - 1, k);
      GuideRecordsReferenced(m', rest, i - 1, k);
    }
  }

  /** A child of the root that references k makes invokeFromText record k. */
  lemma InvokeRecords(m: QMap, e: Element, k: string)
    requires Ordered(m) && ElementReferences(e, k)
    requires e.tag == TagTeacherGuide ==> GuideReadable(e)
    ensures Value(InvokeRefs(m, e.tag, e), k).Some?
  {
    if e.tag == TagVideo || e.tag == TagAudio || e.tag == TagImage {
      var path := Attribute(e, AttrHref);
      assert Value(AddRef(m, path), StrIdFrom(path.value).value) == Some(path.value);
    } else if e.tag == TagForeignObject {
      var path := Attribute(e, AttrSrc);
      assert Value(AddRef(m, path), StrIdFrom(path.value).value) == Some(path.value);
    } else {
      var media := ChildrenTagged(e, TagMedia);
      var i: nat :| i < |media| && GuideReferencesAt(media, i, k);
      GuideRecordsReferenced(m, media, i, k);
    }
  }

  /** Reading a page records every id one of the root's children references. */
  lemma {:induction false} PageRecords(m: QMap, es: seq<Element>, i: nat, k: string)
    requires Ordered(m) && Readable(es) && i < |es| && ElementReferences(es[i], k)
    ensures Value(PageRefs(m, es), k).Some?
    decreases |es|
  {
    var init, last := es[..|es| - 1], es[|es| - 1];
    assert last in es;
    if i == |es| - 1 {
      InvokeRecords(PageRefs(m, init), last, k);
    } else {
      assert init[i] == es[i];
      PageRecords(m, init, i, k);
      InvokeKeeps(PageRefs(m, init), last, k);
    }
  }

  /** Reading the pages records every id some page references. */
  lemma {:induction false} PagesRecords(m: QMap, pages: seq<Element>, p: nat, k: string)
    requires Ordered(m) && p < |pages| && PageReferences(pages[p].children, k)
    requires forall pg :: pg in pages ==> Readable(pg.children)
    ensures Value(PagesRefs(m, pages), k).Some?
    decreases |pages|
  {
    var init, last := pages[..|pages| - 1], pages[|pages| - 1];
    assert last in pages;
    if p == |pages| - 1 {
      var i :| 0 <= i < |last.children| && ElementReferences(last.children[i], k);
      PageRecords(PagesRefs(m, init), last.children, i, k);
    } else {
      assert init[p] == pages[p];
      PagesRecords(m, init, p, k);
      PageKeeps(PagesRefs(m, init), last.children, k);
    }
  }

  // ---------------------------------------------------------------------------
  // The scan records nothing else.

  lemma AddRefOnly(m: QMap, path: Option<string>, k: string)
    requires Ordered(m) && Value(AddRef(m, path), k).Some?
    ensures Value(m, k).Some? || (path.Some? && StrIdFrom(path.value) == Some(k))
  {
  }

  lemma {:induction false} GuideOnly(m: QMap, media: seq<Element>, k: string)
    requires Ordered(m) && GuideTerminates(media)
    requires Value(GuideRefs(m, media), k).Some?
    ensures Value(m, k).Some? || GuideReferences(media, k)
    decreases |media|
  {
    if media != [] {
      var path := media[0].attributes[AttrRelativePath];
      if StrIdFrom(path).Some? {
        var uid := StrIdFrom(path).value;
        var m' := Insert(m, uid, path);
        var rest := media[1..];
        assert GuideRefs(m, media) == GuideRefs(m', rest);
        GuideOnly(m', rest, k);
        if uid == k {
          assert GuideReferencesAt(media, 0, k);
        } else if GuideReferences(rest, k) {
          var i: nat :| i < |rest| && GuideReferencesAt(rest, i, k);
          assert HasId(media[0]);
          GuideReferencesShift(media, i, k);
          assert GuideReferencesAt(media, i + 1, k);
        }
      }
    }
  }

  /** invokeFromText records only what the element references. */
  lemma InvokeOnly(m: QMap, e: Element, k: string)
    requires Ordered(m) && (e.tag == TagTeacherGuide ==> GuideReadable(e))
    requires Value(InvokeRefs(m, e.tag, e), k).Some?
    ensures Value(m, k).Some? || ElementReferences(e, k)
  {
    if e.tag == TagVideo || e.tag == TagAudio || e.tag == TagImage {
      AddRefOnly(m, Attribute(e, AttrHref), k);
    } else if e.tag == TagForeignObject {
      if Attribute(e, AttrType) != Some(TypeText) {
        AddRefOnly(m, Attribute(e, AttrSrc), k);
      }
    } else if e.tag == TagTeacherGuide {
      GuideOnly(m, ChildrenTagged(e, TagMedia), k);
    }
  }

  /** Reading a page records only what the root's children reference. */
  lemma {:induction false} PageOnly(m: QMap, es: seq<Element>, k: string)
    requires Ordered(m) && Readable(es) && Value(PageRefs(m, es), k).Some?
    ensures Value(m, k).Some? || PageReferences(es, k)
    decreases |es|
  {
    if es != [] {
      var init, last := es[..|es| - 1], es[|es| - 1];
      assert last in es;
      InvokeOnly(PageRefs(m, init), last, k);
      if !ElementReferences(last, k) {
        PageOnly(m, init, k);
      }
      if PageReferences(init, k) || ElementReferences(last, k) {
        PageReferencesSnoc(es, k);
      }
    }
  }

  /** A reference on the last page, or on the pages before it, is a reference of the document. */
  lemma ReferencedSnoc(pages: seq<Element>, k: string)
    requires pages != []
    requires Referenced(pages[..|pages| - 1], k) || PageReferences(pages[|pages| - 1].children, k)
    ensures Referenced(pages, k)
  {
    var init := pages[..|pages| - 1];
    if Referenced(init, k) {
      var p :| 0 <= p < |init| && PageReferences(init[p].children, k);
      assert pages[p] == init[p];
      assert PageReferences(pages[p].children, k);
    } else {
      assert PageReferences(pages[|pages| - 1].children, k);
    }
  }

  /** A reference from the last child of the root, or from the children before it, is a reference of the page. */
  lemma PageReferencesSnoc(es: seq<Element>, k: string)
    requires es != []
    requires PageReferences(es[..|es| - 1], k) || ElementReferences(es[|es| - 1], k)
    ensures PageReferences(es, k)
  {
    var init := es[..|es| - 1];
    if PageReferences(init, k) {
      var i :| 0 <= i < |init| && ElementReferences(init[i], k);
      assert es[i] == init[i];
      assert ElementReferences(es[i], k);
    } else {
      assert ElementReferences(es[|es| - 1], k);
    }
  }

  /** Reading the pages records only what some page references. */
  lemma {:induction false} PagesOnly(m: QMap, pages: seq<Element>, k: string)
    requires Ordered(m) && forall pg :: pg in pages ==> Readable(pg.children)
    requires Value(PagesRefs(m, pages), k).Some?
    ensures Value(m, k).Some? || Referenced(pages, k)
    decreases |pages|
  {
    if pages != [] {
      var init, last := pages[..|pages| - 1], pages[|pages| - 1];
      assert last in pages;
      PageOnly(PagesRefs(m, init), last.children, k);
      if !PageReferences(last.children, k) {
        PagesOnly(m, init, k);
      }
      if Referenced(init, k) || PageReferences(last.children, k) {
        ReferencedSnoc(pages, k);
      }
    }
  }

  /** The page scan in one statement: after reading the pages, an id is
      recorded exactly when it was recorded before or some page references it. */
  lemma ScanKeys(m: QMap, pages: seq<Element>, k: string)
    requires Ordered(m) && forall pg :: pg in pages ==> Readable(pg.children)
    ensures Value(PagesRefs(m, pages), k).Some? <==> Value(m, k).Some? || Referenced(pages, k)
  {
    if Value(m, k).Some? {
      PagesKeeps(m, pages, k);
    } else if Referenced(pages, k) {
      var p :| 0 <= p < |pages| && PageReferences(pages[p].children, k);
      PagesRecords(m, pages, p, k);
    }
    if Value(PagesRefs(m, pages), k).Some? {
      PagesOnly(m, pages, k);
    }
  }

  // ---------------------------------------------------------------------------
  // cure against the pages.

  /** An id on disk that no page references and that the handler had not
      recorded before the scan. */
  predicate Orphan(m: QMap, pages: seq<Element>, present: QMap, k: string)
  {
    Value(present, k).Some? && Value(m, k).None? && !Referenced(pages, k)
  }

  /** p is the stored path of an orphan, or that widget's thumbnail. */
  predicate OrphanPath(m: QMap, pages: seq<Element>, present: QMap, p: string)
  {
    exists k :: k in Keys(present) && Orphan(m, pages, present, k) && IsOrThumbOf(p, Value(present, k).value)
  }

  /** cure deletes only what no page references: with the referenced ids
      read from the pages, every file that disappears lies under the stored
      path, or the thumbnail, of an orphan. */
  lemma CureDeletesOnlyOrphans(fs: set<string>, m: QMap, pages: seq<Element>, present: QMap)
    requires Ordered(m) && Ordered(present) && forall pg :: pg in pages ==> Readable(pg.children)
    ensures var r := Deletions(fs, present, SymDiff(Keys(PagesRefs(m, pages)), Keys(present)));
      forall x :: x in fs && x !in r.0 ==> exists p :: Under(x, p) && OrphanPath(m, pages, present, p)
  {
    var dom := PagesRefs(m, pages);
    var r := Deletions(fs, present, SymDiff(Keys(dom), Keys(present)));
    CureDeletesOnlyUnreferenced(fs, dom, present);
    forall x | x in fs && x !in r.0 ensures exists p :: Under(x, p) && OrphanPath(m, pages, present, p) {
      var p :| Under(x, p) && Unreferenced(dom, present, p);
      var k :| k in Keys(present) && Value(present, k).Some? && Value(dom, k).None?
        && IsOrThumbOf(p, Value(present, k).value);
      ScanKeys(m, pages, k);
      assert Orphan(m, pages, present, k);
    }
  }

  /** cure deletes every orphan: nothing under its stored path survives, and
      for a widget nothing under its thumbnail, when the thumbnail is there
      at the widget's turn. */
  lemma CureDeletesOrphans(fs: set<string>, m: QMap, pages: seq<Element>, present: QMap, k: string)
    requires Ordered(m) && Ordered(present) && forall pg :: pg in pages ==> Readable(pg.children)
    requires Orphan(m, pages, present, k)
    requires ThumbAvailable(fs, PagesRefs(m, pages), present, k)
    ensures var p := Value(present, k).value;
      forall x :: x in Deletions(fs, present, SymDiff(Keys(PagesRefs(m, pages)), Keys(present))).0 ==>
        !Under(x, p) && (EndsWith(p, Wgt) ==> !Under(x, ThumbFileNameFrom(p).value))
  {
    ScanKeys(m, pages, k);
    CureDeletesUnreferenced(fs, PagesRefs(m, pages), present, k);
  }
}
