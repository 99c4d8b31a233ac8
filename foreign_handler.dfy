/** The foreign-object garbage collector: it reads which stored files the
    pages of a document reference, lists which stored files are on disk, and
    deletes the files nothing references (with a widget's thumbnail). */
module ForeignHandler {
  import opened Wrappers
  import opened Strings
  import opened QMaps
  import opened SymDiffs
  import opened ForeignIds

  // Tag names the page scan dispatches on.
  const TagVideo: string := "video"
  const TagAudio: string := "audio"
  const TagImage: string := "image"
  const TagForeignObject: string := "foreignObject"
  const TagTeacherGuide: string := "teacherGuide"
  const TagMedia: string := "media"

  // Attributes the ids are read from.
  const AttrHref: string := "xlink:href"
  const AttrType: string := "ub:type"
  const AttrSrc: string := "ub:src"
  const AttrRelativePath: string := "relativePath"

  /** The ub:type of a text box, which refers to no stored file. */
  const TypeText: string := "text"

  /** The sub-directories of a document that hold stored files, in scan order. */
  const ScanDirs: seq<string> := ["audios", "images", "videos", "teacherGuideObjects", "widgets"]

  /** An element of a page's SVG document: its tag, its attributes and its child elements. */
  datatype Element = Element(tag: string, attributes: map<string, string>, children: seq<Element>)

  /** An entry of a directory listing: its file name and its absolute path. */
  datatype FileEntry = FileEntry(fileName: string, absolutePath: string)

  /** QDomElement::attribute(name): the value, or null when the attribute is absent. */
  function Attribute(e: Element, name: string): (v: Option<string>)
    ensures v.Some? <==> name in e.attributes
    ensures v.Some? ==> v.value == e.attributes[name]
  {
    if name in e.attributes then Some(e.attributes[name]) else None
  }

  /** The children with a given tag, in document order: what
      firstChildElement(tag) and nextSiblingElement(tag) walk through. */
  function ChildrenTagged(e: Element, tag: string): (cs: seq<Element>)
    ensures forall c :: c in cs ==> c in e.children && c.tag == tag
    ensures forall c :: c in e.children && c.tag == tag ==> c in cs
  {
    Tagged(e.children, tag)
  }

  function Tagged(es: seq<Element>, tag: string): (cs: seq<Element>)
    ensures forall c :: c in cs ==> c in es && c.tag == tag
    ensures forall c :: c in es && c.tag == tag ==> c in cs
  {
    if es == [] then []
    else (if es[0].tag == tag then [es[0]] else []) + Tagged(es[1..], tag)
  }

  /** The walk keeps document order: the tagged children of two runs of
      siblings are those of the first run followed by those of the second. */
  lemma {:induction false} TaggedAppend(a: seq<Element>, b: seq<Element>, tag: string)
    ensures Tagged(a + b, tag) == Tagged(a, tag) + Tagged(b, tag)
    decreases |a|
  {
    if a == [] {
      assert a + b == b;
    } else {
      assert (a + b)[0] == a[0];
      assert (a + b)[1..] == a[1..] + b;
      TaggedAppend(a[1..], b, tag);
    }
  }

  /** The last sibling is walked last, and only when it has the tag. */
  lemma TaggedSnoc(es: seq<Element>, tag: string)
    requires es != []
    ensures Tagged(es, tag) ==
      Tagged(es[..|es| - 1], tag) + (if es[|es| - 1].tag == tag then [es[|es| - 1]] else [])
  {
    var init, last := es[..|es| - 1], es[|es| - 1];
    assert es == init + [last];
    calc {
      Tagged(es, tag);
      Tagged(init + [last], tag);
      { TaggedAppend(init, [last], tag); }
      Tagged(init, tag) + Tagged([last], tag);
      { TaggedSingle(last, tag); }
      Tagged(init, tag) + (if last.tag == tag then [last] else []);
    }
  }

  lemma TaggedSingle(e: Element, tag: string)
    ensures Tagged([e], tag) == if e.tag == tag then [e] else []
  {
    assert [e][1..] == [];
  }

  // ---------------------------------------------------------------------------
  // The referenced-ids map as a function of the pages read so far.

  /** Every entry maps an id to a path that carries exactly that id. */
  predicate IdsMatchPaths(m: QMap)
  {
    forall e :: e in m ==> StrIdFrom(e.1) == Some(e.0)
  }

  /** The step every *ToContainer function ends with: a path that is present
      and carries an id records `id -> path`; anything else changes nothing. */
  function AddRef(m: QMap, path: Option<string>): (r: QMap)
    requires Ordered(m)
    ensures Ordered(r)
    ensures path.None? || StrIdFrom(path.value).None? ==> r == m
    ensures path.Some? && StrIdFrom(path.value).Some? ==>
      Value(r, StrIdFrom(path.value).value) == Some(path.value)
    ensures forall k :: (path.None? || StrIdFrom(path.value) != Some(k)) ==> Value(r, k) == Value(m, k)
    ensures IdsMatchPaths(m) ==> IdsMatchPaths(r)
  {
    match path
    case None => m
    case Some(p) =>
      match StrIdFrom(p)
      case None => m
      case Some(uid) => Insert(m, uid, p)
  }

  /** mediaToContainer: video, audio and image elements name their file in xlink:href. */
  function MediaRefs(m: QMap, e: Element): (r: QMap)
    requires Ordered(m)
    ensures Ordered(r) && (IdsMatchPaths(m) ==> IdsMatchPaths(r))
  {
    AddRef(m, Attribute(e, AttrHref))
  }

  /** foreingObjectToContainer: a text box is skipped; any other foreign object names its file in ub:src. */
  function ForeignObjectRefs(m: QMap, e: Element): (r: QMap)
    requires Ordered(m)
    ensures Ordered(r) && (IdsMatchPaths(m) ==> IdsMatchPaths(r))
  {
    if Attribute(e, AttrType) == Some(TypeText) then m else AddRef(m, Attribute(e, AttrSrc))
  }

  /** The element has attribute `attr`, and its value carries id k. */
  predicate Carries(e: Element, attr: string, k: string)
  {
    attr in e.attributes && StrIdFrom(e.attributes[attr]) == Some(k)
  }

  /** A media child whose relativePath carries some id. */
  predicate HasId(c: Element)
  {
    AttrRelativePath in c.attributes && StrIdFrom(c.attributes[AttrRelativePath]).Some?
  }

  /** The walk over these media children ends: every child it reaches has a
      relativePath, without which the loop would never advance, and it stops
      at the first child whose path carries no id, reading nothing after it. */
  predicate GuideTerminates(media: seq<Element>)
    decreases |media|
  {
    media == [] ||
    (AttrRelativePath in media[0].attributes &&
     (StrIdFrom(media[0].attributes[AttrRelativePath]).Some? ==> GuideTerminates(media[1..])))
  }

  /** The walk over a teacher guide's media children ends. */
  predicate GuideReadable(e: Element)
  {
    GuideTerminates(ChildrenTagged(e, TagMedia))
  }

  /** teacherGuideToContainer over the remaining media children: each records
      its id, until the first whose path carries no id, which ends the scan. */
  function GuideRefs(m: QMap, media: seq<Element>): (r: QMap)
    requires Ordered(m) && GuideTerminates(media)
    ensures Ordered(r) && (IdsMatchPaths(m) ==> IdsMatchPaths(r))
    decreases |media|
  {
    if media == [] then m
    else
      var path := media[0].attributes[AttrRelativePath];
      match StrIdFrom(path)
      case None => m
      case Some(uid) => GuideRefs(Insert(m, uid, path), media[1..])
  }

  function TeacherGuideRefs(m: QMap, e: Element): (r: QMap)
    requires Ordered(m) && GuideReadable(e)
    ensures Ordered(r) && (IdsMatchPaths(m) ==> IdsMatchPaths(r))
  {
    GuideRefs(m, ChildrenTagged(e, TagMedia))
  }

  /** Every teacher guide among these elements can be read to the end. */
  predicate Readable(es: seq<Element>)
  {
    forall e :: e in es && e.tag == TagTeacherGuide ==> GuideReadable(e)
  }

  /** A run of leading siblings of a readable page is readable. */
  lemma ReadablePrefix(es: seq<Element>, i: nat)
    requires Readable(es) && i <= |es|
    ensures Readable(es[..i])
  {
    forall e | e in es[..i] ensures e in es {
    }
  }

  /** invokeFromText: dispatch on the element's tag; any other tag changes nothing. */
  function InvokeRefs(m: QMap, what: string, e: Element): (r: QMap)
    requires Ordered(m)
    requires what == TagTeacherGuide ==> GuideReadable(e)
    ensures Ordered(r) && (IdsMatchPaths(m) ==> IdsMatchPaths(r))
    ensures what !in {TagVideo, TagAudio, TagImage, TagForeignObject, TagTeacherGuide} ==> r == m
  {
    if what == TagVideo || what == TagAudio || what == TagImage then MediaRefs(m, e)
    else if what == TagForeignObject then ForeignObjectRefs(m, e)
    else if what == TagTeacherGuide then TeacherGuideRefs(m, e)
    else m
  }

  /** fitIdsFromSvgDom over a page root's child elements. */
  function PageRefs(m: QMap, es: seq<Element>): (r: QMap)
    requires Ordered(m) && Readable(es)
    ensures Ordered(r) && (IdsMatchPaths(m) ==> IdsMatchPaths(r))
  {
    if es == [] then m
    else
      var last := es[|es| - 1];
      assert last in es;
      InvokeRefs(PageRefs(m, es[..|es| - 1]), last.tag, last)
  }

  /** The referenced ids after reading every page in turn. */
  function PagesRefs(m: QMap, pages: seq<Element>): (r: QMap)
    requires Ordered(m) && forall pg :: pg in pages ==> Readable(pg.children)
    ensures Ordered(r) && (IdsMatchPaths(m) ==> IdsMatchPaths(r))
  {
    if pages == [] then m
    else PageRefs(PagesRefs(m, pages[..|pages| - 1]), pages[|pages| - 1].children)
  }

  // ---------------------------------------------------------------------------
  // The present-ids map as a function of the directory listings.

  /** One entry of fitIdsFromDir: an entry whose name carries an id records `id -> absolute path`. */
  function AddEntry(m: QMap, f: FileEntry): (r: QMap)
    requires Ordered(m)
    ensures Ordered(r)
    ensures StrIdFrom(f.fileName).None? ==> r == m
    ensures StrIdFrom(f.fileName).Some? ==> Value(r, StrIdFrom(f.fileName).value) == Some(f.absolutePath)
    ensures forall k :: StrIdFrom(f.fileName) != Some(k) ==> Value(r, k) == Value(m, k)
  {
    match StrIdFrom(f.fileName)
    case None => m
    case Some(uid) => Insert(m, uid, f.absolutePath)
  }

  /** fitIdsFromDir over the listing `fs`. */
  function DirIds(m: QMap, fs: seq<FileEntry>): (r: QMap)
    requires Ordered(m)
    ensures Ordered(r)
  {
    if fs == [] then m else AddEntry(DirIds(m, fs[..|fs| - 1]), fs[|fs| - 1])
  }

  /** The absolute path of a scanned sub-directory. */
  function ScanPath(dir: string, name: string): string
  {
    dir + "/" + name
  }

  /** A scanned sub-directory lies directly under the document directory:
      the document path, one separator, then the sub-directory's name. */
  lemma ScanPathParts(dir: string, name: string)
    ensures var p := ScanPath(dir, name);
      |p| == |dir| + 1 + |name| && p[..|dir| + 1] == dir + "/" && p[|dir| + 1..] == name
  {
  }

  /** fitIdsFromFileSystem over the first k scan directories; a directory that
      does not exist (is not in `listing`) is skipped. */
  function FileSystemIds(m: QMap, dir: string, listing: map<string, seq<FileEntry>>, k: nat): (r: QMap)
    requires Ordered(m) && k <= |ScanDirs|
    ensures Ordered(r)
  {
    if k == 0 then m
    else
      var prev := FileSystemIds(m, dir, listing, k - 1);
      var path := ScanPath(dir, ScanDirs[k - 1]);
      if path in listing then DirIds(prev, listing[path]) else prev
  }

  // ---------------------------------------------------------------------------
  // The file system and the deletion loop of cure.

  /** x is p itself or lies inside the directory p. */
  predicate Under(x: string, p: string)
  {
    x == p || (|p| + 1 <= |x| && x[..|p| + 1] == p + "/")
  }

  /** rm_r(p): p and everything below it are gone; nothing else is touched. */
  function RemoveTree(fs: set<string>, p: string): (r: set<string>)
    ensures forall x :: x in r <==> x in fs && !Under(x, p)
  {
    set x | x in fs && !Under(x, p)
  }

  /** p is the stored path itself or, for a widget, its thumbnail. */
  predicate IsOrThumbOf(p: string, path: string)
  {
    p == path || (EndsWith(path, Wgt) && p == ThumbFileNameFrom(path).value)
  }

  /** One iteration of the deletion loop, for a candidate whose stored path
      is `delPath` (None when the candidate is not on disk): the paths it
      removes, the widget's thumbnail first, and the file system afterwards. */
  function DeleteStep(fs: set<string>, delPath: Option<string>): (r: (set<string>, seq<string>))
    ensures delPath.None? ==> r == (fs, [])
    ensures (delPath.Some? && EndsWith(delPath.value, Wgt) && ThumbFileNameFrom(delPath.value).value !in fs)
            ==> r == (fs, [])
    ensures delPath.Some? && !(EndsWith(delPath.value, Wgt) && ThumbFileNameFrom(delPath.value).value !in fs)
            ==> delPath.value in r.1 && (EndsWith(delPath.value, Wgt) ==> ThumbFileNameFrom(delPath.value).value in r.1)
    ensures |r.1| <= 2
    ensures forall p :: p in r.1 ==> delPath.Some? && IsOrThumbOf(p, delPath.value)
    ensures forall x :: x in r.0 <==> x in fs && forall p :: p in r.1 ==> !Under(x, p)
  {
    match delPath
    case None => (fs, [])
    case Some(path) =>
      if EndsWith(path, Wgt) then
        var thumb := ThumbFileNameFrom(path).value;
        if thumb !in fs then (fs, [])
        else
          assert forall p :: p in [thumb, path] <==> p == thumb || p == path;
          (RemoveTree(RemoveTree(fs, thumb), path), [thumb, path])
      else (RemoveTree(fs, path), [path])
  }

  /** The deletion loop over the first candidates, in order: the file system it
      leaves and every path it removed. */
  function Deletions(fs: set<string>, present: QMap, keys: seq<string>): (r: (set<string>, seq<string>))
    ensures r.0 <= fs
    ensures |r.1| <= 2 * |keys|
  {
    if keys == [] then (fs, [])
    else
      var prev := Deletions(fs, present, keys[..|keys| - 1]);
      var step := DeleteStep(prev.0, Value(present, keys[|keys| - 1]));
      (step.0, prev.1 + step.1)
  }

  /** p is a path the collector may delete: the path stored for an id that is
      on disk and referenced by no page, or that path's thumbnail. */
  predicate Unreferenced(dom: QMap, present: QMap, p: string)
  {
    exists k :: k in Keys(present) && Value(present, k).Some? && Value(dom, k).None?
      && IsOrThumbOf(p, Value(present, k).value)
  }

  /** The body of the deletion loop for one candidate whose stored path is
      `delPath`: skip a candidate that is not on disk, skip a widget whose
      thumbnail is missing, otherwise remove the widget's thumbnail and then
      the stored path. */
  method RemoveCandidate(fs: set<string>, delPath: Option<string>) returns (fsAfter: set<string>, removed: seq<string>)
    ensures (fsAfter, removed) == DeleteStep(fs, delPath)
  {
    if delPath.None? {
      return fs, [];
    }
    var path := delPath.value;
    if EndsWith(path, Wgt) {
      var thumbPath := ThumbFileNameFrom(path).value;
      if thumbPath !in fs {
        return fs, [];
      }
      fsAfter := RemoveTree(fs, thumbPath);
      fsAfter := RemoveTree(fsAfter, path);
      return fsAfter, [thumbPath, path];
    }
    fsAfter := RemoveTree(fs, path);
    return fsAfter, [path];
  }

  // ---------------------------------------------------------------------------
  // The collector itself.

  class Handler {
    /** The document directory cure is working on. */
    var currentDir: string
    /** Ids referenced by the pages, with the path each was referenced by. */
    var domIds: QMap
    /** Ids of the stored files on disk, with their absolute paths. */
    var presentIds: QMap

    ghost predicate Valid()
      reads this
    {
      Ordered(domIds) && Ordered(presentIds) && IdsMatchPaths(domIds)
    }

    constructor()
      ensures Valid() && domIds == [] && presentIds == []
    {
      currentDir := "";
      domIds := [];
      presentIds := [];
    }

    /** `domIds.insert(uid, path)` for a path that carries uid. */
    method RecordRef(uid: string, path: string)
      requires Valid() && StrIdFrom(path) == Some(uid)
      modifies this
      ensures Valid() && domIds == Insert(old(domIds), uid, path)
      ensures presentIds == old(presentIds) && currentDir == old(currentDir)
    {
      domIds := Insert(domIds, uid, path);
    }

    method MediaToContainer(e: Element)
      requires Valid()
      modifies this
      ensures Valid() && domIds == MediaRefs(old(domIds), e)
      ensures presentIds == old(presentIds) && currentDir == old(currentDir)
    {
      var path := Attribute(e, AttrHref);
      if path.None? {
        return;
      }
      var uid := StrIdFrom(path.value);
      if uid.None? {
        return;
      }
      RecordRef(uid.value, path.value);
    }

    method ForeignObjectToContainer(e: Element)
      requires Valid()
      modifies this
      ensures Valid() && domIds == ForeignObjectRefs(old(domIds), e)
      ensures presentIds == old(presentIds) && currentDir == old(currentDir)
    {
      if Attribute(e, AttrType) == Some(TypeText) {
        return;
      }
      var path := Attribute(e, AttrSrc);
      if path.None? {
        return;
      }
      var uid := StrIdFrom(path.value);
      if uid.None? {
        return;
      }
      RecordRef(uid.value, path.value);
    }

    method TeacherGuideToContainer(e: Element)
      requires Valid() && GuideReadable(e)
      modifies this
      ensures Valid() && domIds == TeacherGuideRefs(old(domIds), e)
      ensures presentIds == old(presentIds) && currentDir == old(currentDir)
    {
      var media := ChildrenTagged(e, TagMedia);
      var i := 0;
      assert media[i..] == media;
      while i < |media|
        invariant 0 <= i <= |media| && Valid()
        invariant presentIds == old(presentIds) && currentDir == old(currentDir)
        invariant GuideTerminates(media[i..])
        invariant GuideRefs(domIds, media[i..]) == TeacherGuideRefs(old(domIds), e)
      {
        assert media[i..][0] == media[i];
        var path := media[i].attributes[AttrRelativePath];
        var uid := StrIdFrom(path);
        if uid.None? {
          assert GuideRefs(domIds, media[i..]) == domIds;
          return;
        }
        RecordRef(uid.value, path);
        assert media[i..][1..] == media[i + 1..];
        i := i + 1;
      }
      assert media[i..] == [];
    }

    method InvokeFromText(what: string, e: Element)
      requires Valid() && (what == TagTeacherGuide ==> GuideReadable(e))
      modifies this
      ensures Valid() && domIds == InvokeRefs(old(domIds), what, e)
      ensures presentIds == old(presentIds) && currentDir == old(currentDir)
    {
      if what == TagVideo || what == TagAudio || what == TagImage {
        MediaToContainer(e);
      } else if what == TagForeignObject {
        ForeignObjectToContainer(e);
      } else if what == TagTeacherGuide {
        TeacherGuideToContainer(e);
      }
    }

    /** fitIdsFromSvgDom: every child element of the page's root, in order. */
    method FitIdsFromSvgDom(root: Element)
      requires Valid() && Readable(root.children)
      modifies this
      ensures Valid() && domIds == PageRefs(old(domIds), root.children)
      ensures presentIds == old(presentIds) && currentDir == old(currentDir)
    {
      var es := root.children;
      var i := 0;
      while i < |es|
        invariant 0 <= i <= |es| && Valid()
        invariant presentIds == old(presentIds) && currentDir == old(currentDir)
        invariant domIds == PageRefs(old(domIds), es[..i])
      {
        assert es[i] in es;
        InvokeFromText(es[i].tag, es[i]);
        ReadablePrefix(es, i + 1);
        assert es[..i + 1][..i] == es[..i];
        i := i + 1;
      }
      assert es[..i] == es;
    }

    /** The body of fitIdsFromDir's loop for one entry. */
    method RecordEntry(f: FileEntry)
      requires Valid()
      modifies this
      ensures Valid() && presentIds == AddEntry(old(presentIds), f)
      ensures domIds == old(domIds) && currentDir == old(currentDir)
    {
      var uid := StrIdFrom(f.fileName);
      if uid.Some? {
        presentIds := Insert(presentIds, uid.value, f.absolutePath);
      }
    }

    /** fitIdsFromDir: every entry of one directory listing, in order. */
    method FitIdsFromDir(entries: seq<FileEntry>)
      requires Valid()
      modifies this
      ensures Valid() && presentIds == DirIds(old(presentIds), entries)
      ensures domIds == old(domIds) && currentDir == old(currentDir)
    {
      var i := 0;
      while i < |entries|
        invariant 0 <= i <= |entries| && Valid()
        invariant domIds == old(domIds) && currentDir == old(currentDir)
        invariant presentIds == DirIds(old(presentIds), entries[..i])
      {
        assert entries[..i + 1][..i] == entries[..i];
        RecordEntry(entries[i]);
        i := i + 1;
      }
      assert entries[..i] == entries;
    }

    /** fitIdsFromFileSystem: each scan directory of the current document that exists. */
    method FitIdsFromFileSystem(listing: map<string, seq<FileEntry>>)
      requires Valid()
      modifies this
      ensures Valid() && presentIds == FileSystemIds(old(presentIds), currentDir, listing, |ScanDirs|)
      ensures domIds == old(domIds) && currentDir == old(currentDir)
    {
      var k := 0;
      while k < |ScanDirs|
        invariant 0 <= k <= |ScanDirs| && Valid()
        invariant domIds == old(domIds) && currentDir == old(currentDir)
        invariant presentIds == FileSystemIds(old(presentIds), currentDir, listing, k)
      {
        var path := ScanPath(currentDir, ScanDirs[k]);
        if path in listing {
          FitIdsFromDir(listing[path]);
        }
        k := k + 1;
      }
    }

    /** findRedundandElements, given a buffer large enough for any outcome:
        the sorted ids that are referenced but not on disk, or on disk but
        not referenced. */
    method FindRedundandElements() returns (v: seq<string>)
      requires Valid()
      ensures v == SymDiff(Keys(domIds), Keys(presentIds))
      ensures StrictlySorted(v)
      ensures forall k :: k in v <==> (k in Keys(domIds)) != (k in Keys(presentIds))
    {
      var d := Keys(domIds);
      var p := Keys(presentIds);
      var buf := new string[SafeCapacity(d, p)];
      var n, fits := SymmetricDifferenceInto(d, p, buf);
      v := buf[..n];
      SymDiffSpec(d, p);
    }

    /** The deletion loop of cure over the candidates, against the file system `fs`. */
    method RemoveRedundant(candidates: seq<string>, fs: set<string>) returns (fsAfter: set<string>, removed: seq<string>)
      ensures (fsAfter, removed) == Deletions(fs, presentIds, candidates)
    {
      fsAfter, removed := fs, [];
      var i := 0;
      while i < |candidates|
        invariant 0 <= i <= |candidates|
        invariant (fsAfter, removed) == Deletions(fs, presentIds, candidates[..i])
      {
        assert candidates[..i + 1][..i] == candidates[..i] && candidates[..i + 1][i] == candidates[i];
        var gone;
        fsAfter, gone := RemoveCandidate(fsAfter, Value(presentIds, candidates[i]));
        removed := removed + gone;
        i := i + 1;
      }
      assert candidates[..i] == candidates;
    }

    /** cure(dir): read the pages, list the stored files, and delete what is on
        disk but unreferenced. The two maps keep what earlier calls put in them. */
    method Cure(dir: string, pages: seq<Element>, listing: map<string, seq<FileEntry>>, fs: set<string>)
      returns (fsAfter: set<string>, removed: seq<string>)
      requires Valid() && forall pg :: pg in pages ==> Readable(pg.children)
      modifies this
      ensures Valid() && currentDir == dir
      ensures domIds == PagesRefs(old(domIds), pages)
      ensures presentIds == FileSystemIds(old(presentIds), dir, listing, |ScanDirs|)
      ensures (fsAfter, removed) == Deletions(fs, presentIds, SymDiff(Keys(domIds), Keys(presentIds)))
    {
      currentDir := dir;
      var i := 0;
      while i < |pages|
        invariant 0 <= i <= |pages| && Valid()
        invariant currentDir == dir && presentIds == old(presentIds)
        invariant domIds == PagesRefs(old(domIds), pages[..i])
      {
        assert pages[i] in pages;
        FitIdsFromSvgDom(pages[i]);
        assert pages[..i + 1][..i] == pages[..i];
        i := i + 1;
      }
      assert pages[..i] == pages;
      FitIdsFromFileSystem(listing);
      var candidates := FindRedundandElements();
      fsAfter, removed := RemoveRedundant(candidates, fs);
    }
  }
}
