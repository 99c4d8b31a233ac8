/** The page state of the "ordonner des lettres" widget and the handlers that
    change it: importing and exporting the exercise records, the built-in
    example, adding, closing and renumbering blocks, switching between the
    display and edit views, the answer check after a reorder, dropping an
    audio file on a block, and the two cosmetic styles. */
module LetterWidget {
  import opened Wrappers
  import opened Strings
  import opened LetterTiles

  /** One exercise as exportData writes it and importData reads it. */
  datatype Record = Record(text: string, audio: string, answer: string)

  /** A `.cont` block of `#data`, reduced to what the script writes and reads back. */
  datatype Container = Container(
    number: nat,          // text of `.number_cont`
    text: string,         // text of `.audio_desc`
    src: string,          // `src` of the block's audio `<source>`
    hidden: string,       // value of the hidden input of `.imgs_cont`: the canonical answer
    editAnswer: string,   // text of the editable `.audio_answer`; "" when the block has none
    tiles: seq<string>,   // texts of the `.img_block` tiles, in document order
    colour: Colour)

  /** The prefix that ties a stored audio reference to the widget's own folder. */
  const Up := "../../"
  /** sankoreLang.example, the built-in answer. */
  const Example := "exemple"
  /** sankoreLang.short_desc, the built-in prompt. */
  const ShortDesc := "Ecoutez le son et faire le bon mot."
  /** sankoreLang.enter, the prompt of a new block. */
  const Enter := "Entrez votre description ici ..."
  /** The audio of the built-in example, relative to the widget's folder. */
  const ExampleSound := "objects/beep.wav"

  // ---------------------------------------------------------------- records

  /** One list of draws per record, as long as its answer: the Math.random() values its shuffle uses. */
  predicate DrawsFor(data: seq<Record>, rs: seq<seq<real>>)
  {
    |rs| == |data| && forall i :: 0 <= i < |data| ==> |rs[i]| == |data[i].answer| && UnitDraws(rs[i])
  }

  /** The block importData builds for record r as block number k. */
  function ImportedBlock(r: Record, k: nat, rs: seq<real>): Container
    requires |rs| == |r.answer| && UnitDraws(rs)
  {
    Container(k, r.text, Up + r.audio, r.answer, "", Shuffled(TilesOf(r.answer), rs), Gray)
  }

  /** The loop body of importData for one record: a block numbered k whose
      tiles, built and shuffled, hold exactly the characters of the answer. */
  method BuildBlock(r: Record, k: nat, rs: seq<real>) returns (block: Container)
    requires |rs| == |r.answer| && UnitDraws(rs)
    ensures block == ImportedBlock(r, k, rs)
    ensures TilesAgree(block, false)
  {
    var tiles := BuildTiles(r.answer);
    Shuffle(tiles, rs);
    TilesKeepLetters(r.answer, rs);
    block := Container(k, r.text, Up + r.audio, r.answer, "", tiles[..], Gray);
  }

  /** The blocks importData appends, numbered from 1. */
  function Imported(data: seq<Record>, rs: seq<seq<real>>): (r: seq<Container>)
    requires DrawsFor(data, rs)
    ensures |r| == |data| && Numbered(r)
  {
    seq(|data|, i requires 0 <= i < |data| => ImportedBlock(data[i], i + 1, rs[i]))
  }

  /** The record exportData writes for a block: the first "../../" of the source
      dropped, the answer read from the editable field in the edit view and from
      the hidden input in the display view. */
  function ExportedRecord(c: Container, editing: bool): Record
  {
    Record(c.text, ReplaceFirst(c.src, Up, ""), if editing then c.editAnswer else c.hidden)
  }

  function Exported(conts: seq<Container>, editing: bool): seq<Record>
  {
    seq(|conts|, i requires 0 <= i < |conts| => ExportedRecord(conts[i], editing))
  }

  /** Importing one more record appends one more block. */
  lemma ImportedSnoc(data: seq<Record>, rs: seq<seq<real>>, k: nat)
    requires DrawsFor(data, rs) && k < |data|
    ensures DrawsFor(data[..k + 1], rs[..k + 1])
    ensures Imported(data[..k + 1], rs[..k + 1])
      == Imported(data[..k], rs[..k]) + [ImportedBlock(data[k], k + 1, rs[k])]
  {
  }

  /** Exporting what was just imported gives back the same records, in the same order. */
  lemma {:induction false} ImportExportRoundTrip(data: seq<Record>, rs: seq<seq<real>>)
    requires DrawsFor(data, rs)
    ensures Exported(Imported(data, rs), false) == data
  {
    var out := Exported(Imported(data, rs), false);
    forall i | 0 <= i < |data|
      ensures out[i] == data[i]
    {
      ReplaceFirstOfPrefix(Up, data[i].audio);
    }
  }

  /** The exercise showExample puts on the page: the built-in prompt, sound and answer. */
  const ExampleRecord := Record(ShortDesc, ExampleSound, Example)

  /** The block showExample builds: the example exercise as block number 1. */
  function ExampleBlock(rs: seq<real>): Container
    requires |rs| == |Example| && UnitDraws(rs)
  {
    ImportedBlock(ExampleRecord, 1, rs)
  }

  /** A block addContainer builds as block number k. */
  function NewBlock(k: nat): Container
  {
    Container(k, Enter, "", "", Example, [], Gray)
  }

  // -------------------------------------------------------------- numbering

  /** The blocks are labelled 1 .. n in document order. */
  predicate Numbered(conts: seq<Container>)
  {
    forall i :: 0 <= i < |conts| ==> conts[i].number == i + 1
  }

  /** What refreshBlockNumbers leaves: every block relabelled by its position, nothing else touched. */
  function Renumbered(conts: seq<Container>): (r: seq<Container>)
    ensures |r| == |conts|
    ensures Numbered(r)
    ensures forall i :: 0 <= i < |r| ==> r[i].(number := conts[i].number) == conts[i]
  {
    seq(|conts|, i requires 0 <= i < |conts| => conts[i].(number := i + 1))
  }

  // ------------------------------------------------------------ view switch

  /** The blocks after switching to the edit view: gray, no tiles, the hidden answer in the editable field. */
  function ForEdit(conts: seq<Container>): seq<Container>
  {
    seq(|conts|, i requires 0 <= i < |conts| =>
      conts[i].(colour := Gray, tiles := [], editAnswer := conts[i].hidden))
  }

  predicate DrawsForEdited(conts: seq<Container>, rs: seq<seq<real>>)
  {
    |rs| == |conts| && forall i :: 0 <= i < |conts| ==> |rs[i]| == |conts[i].editAnswer| && UnitDraws(rs[i])
  }

  /** The blocks after switching to the display view: the edited answer becomes
      the hidden answer and its shuffled tiles are appended. */
  function ForDisplay(conts: seq<Container>, rs: seq<seq<real>>): seq<Container>
    requires DrawsForEdited(conts, rs)
  {
    seq(|conts|, i requires 0 <= i < |conts| =>
      conts[i].(hidden := conts[i].editAnswer, editAnswer := "",
                tiles := conts[i].tiles + Shuffled(TilesOf(conts[i].editAnswer), rs[i])))
  }

  /** Entering the edit view does not change what would be exported. */
  lemma EditKeepsExport(conts: seq<Container>)
    ensures Exported(ForEdit(conts), true) == Exported(conts, false)
  {
  }

  /** Leaving the edit view commits the edited answers: the export is what the edit view would have exported. */
  lemma DisplayKeepsExport(conts: seq<Container>, rs: seq<seq<real>>)
    requires DrawsForEdited(conts, rs)
    ensures Exported(ForDisplay(conts, rs), false) == Exported(conts, true)
  {
  }

  // ------------------------------------------------------------ answer check

  /** checkResult applied to a block: only its colour changes. */
  function CheckedBlock(c: Container): (r: Container)
    ensures r.colour == Green <==> Concat(c.tiles) == c.hidden
    ensures r.colour != Gray
    ensures r.(colour := c.colour) == c
  {
    c.(colour := Checked(c.tiles, c.hidden))
  }

  /** Checking again without reordering changes nothing. */
  lemma CheckIdempotent(c: Container)
    ensures CheckedBlock(CheckedBlock(c)) == CheckedBlock(c)
  {
  }

  // ------------------------------------------------------------- audio drop

  /** The parsed drop payload: the `path` and `type` elements of the dragged XML. */
  datatype Payload = Payload(path: string, mediaType: string)

  /** A drop event: no dataTransfer at all, or its text/plain data and what
      parsing it yields (None when the `path` or `type` element is missing, so
      that reading it throws). */
  datatype Drop = NoDataTransfer | DataTransfer(text: string, parsed: Option<Payload>)

  /** The test `tmp_type.substr(0, 5) == "audio"`: the type begins with "audio". */
  function AcceptsAudio(mediaType: string): (b: bool)
    ensures b <==> "audio" <= mediaType
  {
    Substr(mediaType, 0, 5) == "audio"
  }

  /** The source a dropped audio file gets: "../../" and the path without its first character. */
  function DroppedSource(path: string): (src: string)
    ensures ReplaceFirst(src, Up, "") == if path == [] then [] else path[1..]
  {
    ReplaceFirstOfPrefix(Up, Substr(path, 1, |path|));
    Up + Substr(path, 1, |path|)
  }

  /** The block after a drop: only an accepted audio payload changes its
      source. Empty text parses to a document without a `path` element, so
      reading the path throws and the block stays as it was. */
  function AfterDrop(c: Container, d: Drop): Container
  {
    if d.DataTransfer? && d.text != "" && d.parsed.Some? && AcceptsAudio(d.parsed.value.mediaType)
    then c.(src := DroppedSource(d.parsed.value.path))
    else c
  }

  /** A drop changes the exported audio only for an audio payload, and then to the dropped path minus its first character. */
  lemma DropExport(c: Container, d: Drop, editing: bool)
    ensures var r := ExportedRecord(AfterDrop(c, d), editing);
      if d.DataTransfer? && d.text != "" && d.parsed.Some? && "audio" <= d.parsed.value.mediaType
      then r == ExportedRecord(c, editing).(audio := Substr(d.parsed.value.path, 1, |d.parsed.value.path|))
      else r == ExportedRecord(c, editing)
  {
  }

  // ------------------------------------------------------------------ style

  /** A CSS class on a named element of the frame: (selector, class). */
  type Marker = (string, string)

  /** The classes changeStyle adds for the "pad" look and removes for the plain one. */
  const PadMarkers: set<Marker> := {
    (".b_top_left", "btl_pad"), (".b_top_center", "btc_pad"), (".b_top_right", "btr_pad"),
    (".b_center_left", "bcl_pad"), (".b_center_right", "bcr_pad"),
    (".b_bottom_right", "bbr_pad"), (".b_bottom_left", "bbl_pad"), (".b_bottom_center", "bbc_pad"),
    ("#wgt_reload", "pad_color"), ("#wgt_reload", "pad_reload"),
    ("#wgt_edit", "pad_color"), ("#wgt_edit", "pad_edit"),
    ("#wgt_display", "pad_color"), ("#wgt_display", "pad_edit"),
    ("#wgt_name", "pad_color"), (".style_select", "pad_select")
  }

  /** changeStyle(val): value 1 strips every pad class, any other value adds them all; no other class is touched. */
  function ChangeStyle(classes: set<Marker>, val: int): (r: set<Marker>)
    ensures r - PadMarkers == classes - PadMarkers
    ensures val == 1 ==> r !! PadMarkers
    ensures val != 1 ==> PadMarkers <= r
  {
    if val == 1 then classes - PadMarkers else classes + PadMarkers
  }

  /** Applying the same style twice is the same as once, and the plain style undoes the pad style up to the pad classes. */
  lemma StyleSettles(classes: set<Marker>, val: int, other: int)
    ensures ChangeStyle(ChangeStyle(classes, val), val) == ChangeStyle(classes, val)
    ensures ChangeStyle(ChangeStyle(classes, other), 1) == classes - PadMarkers
  {
  }

  // ----------------------------------------------------------------- widget

  /** The tile invariant of a block: in the display view its tiles hold exactly
      the characters of its hidden answer; in the edit view it has no tiles. */
  predicate TilesAgree(c: Container, editing: bool)
  {
    if editing then c.tiles == [] else multiset(Concat(c.tiles)) == multiset(c.hidden)
  }

  /** The blocks of `#data` and which view is selected. */
  class Widget {
    var conts: seq<Container>
    var editing: bool   // whether `#wgt_edit` carries the class "selected"

    ghost predicate Valid()
      reads this
    {
      forall i :: 0 <= i < |conts| ==> TilesAgree(conts[i], editing)
    }

    /** The page as it loads: no blocks, the display view selected. */
    constructor ()
      ensures Valid() && conts == [] && !editing
    {
      conts := [];
      editing := false;
    }

    /** importData(data): one block per record, appended in order and numbered from 1. */
    method ImportData(data: seq<Record>, rs: seq<seq<real>>)
      requires Valid() && !editing && DrawsFor(data, rs)
      modifies this
      ensures Valid() && !editing
      ensures conts == old(conts) + Imported(data, rs)
    {
      var k := 0;
      while k < |data|
        invariant 0 <= k <= |data| && DrawsFor(data[..k], rs[..k])
        invariant Valid() && !editing
        invariant conts == old(conts) + Imported(data[..k], rs[..k])
      {
        var block := BuildBlock(data[k], k + 1, rs[k]);
        ImportedSnoc(data, rs, k);
        AppendBlock(block);
        k := k + 1;
      }
      assert data[..k] == data && rs[..k] == rs;
    }

    /** showExample(): the single built-in block. */
    method ShowExample(rs: seq<real>)
      requires Valid() && !editing && |rs| == |Example| && UnitDraws(rs)
      modifies this
      ensures Valid() && !editing
      ensures conts == old(conts) + [ExampleBlock(rs)]
    {
      var block := BuildBlock(ExampleRecord, 1, rs);
      AppendBlock(block);
    }

    /** `$("#data").append(container)` for a block whose tiles agree with its answer. */
    method AppendBlock(block: Container)
      requires Valid() && !editing && TilesAgree(block, false)
      modifies this
      ensures Valid() && !editing
      ensures conts == old(conts) + [block]
    {
      conts := conts + [block];
    }

    /** What start() shows on a fresh page: the saved records, or the example when
        nothing was saved; either way the blocks are numbered 1 .. n and export
        gives back what was loaded. */
    method Load(saved: Option<seq<Record>>, rs: seq<seq<real>>)
      requires Valid() && !editing && conts == []
      requires saved.Some? ==> DrawsFor(saved.value, rs)
      requires saved.None? ==> |rs| == 1 && |rs[0]| == |Example| && UnitDraws(rs[0])
      modifies this
      ensures Valid() && !editing && Numbered(conts)
      ensures Exported(conts, false) ==
        if saved.Some? then saved.value else [ExampleRecord]
    {
      if saved.Some? {
        ImportData(saved.value, rs);
        assert conts == Imported(saved.value, rs);
        ImportExportRoundTrip(saved.value, rs);
      } else {
        ShowExample(rs[0]);
        assert conts == [ExampleBlock(rs[0])];
        ReplaceFirstOfPrefix(Up, ExampleSound);
      }
    }

    /** exportData(): one record per block, in document order. */
    method ExportData() returns (records: seq<Record>)
      ensures records == Exported(conts, editing)
    {
      records := [];
      var k := 0;
      while k < |conts|
        invariant 0 <= k <= |conts|
        invariant records == Exported(conts[..k], editing)
      {
        var c := conts[k];
        var audio := ReplaceFirst(c.src, Up, "");
        var answer := if editing then c.editAnswer else c.hidden;
        records := records + [Record(c.text, audio, answer)];
        k := k + 1;
      }
      assert conts[..k] == conts;
    }

    /** refreshBlockNumbers(): relabel the blocks 1 .. n in document order. */
    method RefreshBlockNumbers()
      requires Valid()
      modifies this
      ensures Valid() && editing == old(editing)
      ensures conts == Renumbered(old(conts))
    {
      var i := 0;
      while i < |conts|
        invariant 0 <= i <= |conts| == |old(conts)|
        invariant editing == old(editing)
        invariant forall j :: 0 <= j < i ==> conts[j] == old(conts)[j].(number := j + 1)
        invariant forall j :: i <= j < |conts| ==> conts[j] == old(conts)[j]
      {
        conts := conts[i := conts[i].(number := i + 1)];
        i := i + 1;
      }
    }

    /** A click on a block's close button, which only the edit view shows: the
        block goes, the rest are renumbered. */
    method CloseContainer(k: nat)
      requires Valid() && editing && k < |conts|
      modifies this
      ensures Valid() && editing == old(editing) && Numbered(conts)
      ensures conts == Renumbered(old(conts)[..k] + old(conts)[k + 1..])
    {
      conts := conts[..k] + conts[k + 1..];
      RefreshBlockNumbers();
    }

    /** addContainer(), from the add button only the edit view shows: a new block
        at the end, numbered one past the current count. */
    method AddContainer()
      requires Valid() && editing
      modifies this
      ensures Valid() && editing == old(editing)
      ensures conts == old(conts) + [NewBlock(|old(conts)| + 1)]
      ensures Numbered(old(conts)) ==> Numbered(conts)
    {
      conts := conts + [Container(|conts| + 1, Enter, "", "", Example, [], Gray)];
    }

    /** The display button: unless already selected, every block gets its edited
        answer as hidden answer and a shuffled tile per character. */
    method SwitchToDisplay(rs: seq<seq<real>>)
      requires Valid() && (editing ==> DrawsForEdited(conts, rs))
      modifies this
      ensures Valid() && !editing
      ensures conts == if old(editing) then ForDisplay(old(conts), rs) else old(conts)
    {
      if !editing {
        return;
      }
      editing := false;
      var i := 0;
      while i < |conts|
        invariant 0 <= i <= |conts| == |old(conts)| && !editing
        invariant forall j :: 0 <= j < i ==> conts[j] == ForDisplay(old(conts), rs)[j]
        invariant forall j :: i <= j < |conts| ==> conts[j] == old(conts)[j]
      {
        var c := conts[i];
        var answer := c.editAnswer;
        var tiles := BuildTiles(answer);
        Shuffle(tiles, rs[i]);
        conts := conts[i := c.(hidden := answer, editAnswer := "", tiles := c.tiles + tiles[..])];
        i := i + 1;
      }
      forall j | 0 <= j < |conts|
        ensures TilesAgree(conts[j], editing)
      {
        assert old(conts)[j].tiles == [] by {
          assert TilesAgree(old(conts)[j], true);
        }
        TilesKeepLetters(old(conts)[j].editAnswer, rs[j]);
        assert conts[j].tiles == Shuffled(TilesOf(old(conts)[j].editAnswer), rs[j]);
      }
    }

    /** The edit button: unless already selected, every block turns gray, loses its
        tiles and shows its hidden answer in the editable field. */
    method SwitchToEdit()
      requires Valid()
      modifies this
      ensures Valid() && editing
      ensures conts == if old(editing) then old(conts) else ForEdit(old(conts))
    {
      if editing {
        return;
      }
      editing := true;
      var i := 0;
      while i < |conts|
        invariant 0 <= i <= |conts| == |old(conts)| && editing
        invariant forall j :: 0 <= j < i ==> conts[j] == ForEdit(old(conts))[j]
        invariant forall j :: i <= j < |conts| ==> conts[j] == old(conts)[j]
      {
        var c := conts[i];
        conts := conts[i := c.(colour := Gray, tiles := [], editAnswer := c.hidden)];
        i := i + 1;
      }
    }

    /** checkResult on block k, as the sortable update event runs it. */
    method CheckResult(k: nat)
      requires Valid() && k < |conts|
      modifies this
      ensures Valid() && editing == old(editing)
      ensures conts == old(conts)[k := CheckedBlock(old(conts)[k])]
    {
      var c := conts[k];
      var str := "";
      var t := 0;
      while t < |c.tiles|
        invariant 0 <= t <= |c.tiles|
        invariant str == Concat(c.tiles[..t])
      {
        assert c.tiles[..t + 1][..t] == c.tiles[..t];
        str := str + c.tiles[t];
        t := t + 1;
      }
      assert c.tiles[..t] == c.tiles;
      if str == c.hidden {
        conts := conts[k := c.(colour := Green)];
      } else {
        conts := conts[k := c.(colour := Red)];
      }
    }

    /** The learner drops a tile elsewhere in block k (a reordering of its tiles), and the check runs. */
    method Reorder(k: nat, tiles: seq<string>)
      requires Valid() && !editing && k < |conts|
      requires multiset(tiles) == multiset(conts[k].tiles)
      modifies this
      ensures Valid() && !editing
      ensures conts == old(conts)[k := CheckedBlock(old(conts)[k].(tiles := tiles))]
    {
      ConcatPermutation(tiles, conts[k].tiles);
      conts := conts[k := conts[k].(tiles := tiles)];
      CheckResult(k);
    }

    /** onDropAudio on block k: an alert when the drag carries no data (with
        empty text the handler then throws, so nothing changes); an audio
        payload replaces the block's source; anything else changes nothing. */
    method OnDropAudio(k: nat, d: Drop) returns (alerted: bool)
      requires Valid() && editing && k < |conts|
      modifies this
      ensures Valid() && editing == old(editing)
      ensures alerted <==> d.NoDataTransfer? || d.text == ""
      ensures conts == old(conts)[k := AfterDrop(old(conts)[k], d)]
    {
      if d.NoDataTransfer? {
        return true;
      }
      alerted := d.text == "";
      if alerted || d.parsed.None? {
        return;
      }
      var path := d.parsed.value.path;
      var mediaType := d.parsed.value.mediaType;
      if Substr(mediaType, 0, 5) == "audio" {
        var tmp := Substr(path, 1, |path|);
        conts := conts[k := conts[k].(src := Up + tmp)];
      }
    }
  }
}
