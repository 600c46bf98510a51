/**
 * The page designer's main form: the scene, the file name, the clipboard
 * buffer with its paste offset, the add-position counter, and the
 * application-wide Dirty flag, with the operations the buttons trigger.
 * Dialogs are replaced by their answers, passed in as parameters.
 */
module PageDesigner {
  import opened Wrappers
  import opened Geometry
  import opened Items
  import opened Codec
  import opened DocumentFile
  import opened GraphicsScene

  /// How an open ends. The warning box the form shows for the three refusals
  /// and for CannotOpen is not modelled.
  datatype OpenOutcome = Cancelled | CannotOpen | NotPgdFile | UnknownVersion | BrokenRecord | Opened

  /// The outcomes open reaches through its IOError handler.
  predicate RaisesIOError(outcome: OpenOutcome)
  {
    outcome.CannotOpen? || outcome.NotPgdFile? || outcome.UnknownVersion?
  }

  /// The outcome of opening a file whose contents are `file`.
  function OpenResult(file: seq<Token>): OpenOutcome
  {
    match LoadFile(file)
    case NotPageFile => NotPgdFile
    case UnsupportedVersion => UnknownVersion
    case Records(load) => if load.complete then Opened else BrokenRecord
  }

  /// The scene after opening a file whose contents are `file`: always the
  /// borders, then, when the header is right, the items of the records read.
  function OpenedNodes(file: seq<Token>): seq<Node>
  {
    match LoadFile(file)
    case Records(load) => AddedAll(BorderNodes(), load.items)
    case _ => BorderNodes()
  }

  /// A file that open refuses at its header leaves just the page borders.
  lemma RefusedFileLeavesBorders(file: seq<Token>)
    requires |file| == 0 || file[0] != Int32Tok(MagicNumber) || |file| == 1 || file[1] != Int16Tok(FileVersion)
    ensures OpenResult(file) == NotPgdFile || OpenResult(file) == UnknownVersion
    ensures OpenedNodes(file) == BorderNodes()
  {
  }

  /// Opening what save wrote gives the borders and then every saved page
  /// item, in the order save wrote them (topmost first, so the stacking
  /// order comes back reversed), with the last one read selected.
  lemma {:induction false} ReopenSaved(nodes: seq<Node>)
    ensures var saved := PageItems(TopmostFirst(nodes));
            var reopened := OpenedNodes(SaveStream(TopmostFirst(nodes)));
            && OpenResult(SaveStream(TopmostFirst(nodes))) == Opened
            && |reopened| == 2 + |saved|
            && (forall k :: 0 <= k < 2 ==> reopened[k].item == BorderNodes()[k].item)
            && (forall k :: 0 <= k < |saved| ==> reopened[2 + k].item == Page(saved[k]))
            && (saved != [] ==> SelectedItem(reopened) == Some(|reopened| - 1))
  {
    var saved := PageItems(TopmostFirst(nodes));
    SaveThenLoad(TopmostFirst(nodes));
    if saved != [] {
      AddedAllSelectsLast(BorderNodes(), saved);
    }
  }

  class MainForm {
    var filename: string
    var copiedItem: seq<Token>
    var pasteOffset: int
    var prevPoint: ViewPoint
    var addOffset: int
    /// The application-wide Dirty flag: unsaved changes exist.
    var dirty: bool
    const scene: Scene

    ghost predicate Valid()
      reads this, scene
    {
      scene.Valid()
    }

    constructor ()
      ensures Valid() && fresh(scene)
      ensures scene.nodes == BorderNodes()
      ensures filename == "" && copiedItem == [] && pasteOffset == 5
      ensures prevPoint == ViewPoint(0, 0) && addOffset == 5 && !dirty
    {
      filename := "";
      copiedItem := [];
      pasteOffset := 5;
      prevPoint := ViewPoint(0, 0);
      addOffset := 5;
      dirty := false;
      scene := new Scene();
      new;
      scene.AddBorders();
    }

    /// position: where a new item goes. Outside the view, a random spot on
    /// the diagonal (`coord` is the random number, in [36, 144]). At the
    /// cursor otherwise, moved 5 units further down and right each time the
    /// cursor has not moved since the last add. The cursor and the result are
    /// in the form's own coordinates; the mapping of the result to the scene
    /// is not modelled.
    method Position(cursor: ViewPoint, inView: bool, coord: int) returns (p: ViewPoint)
      requires 36 <= coord <= 144
      modifies this`prevPoint, this`addOffset
      ensures !inView ==> p == ViewPoint(coord, coord) && prevPoint == old(prevPoint) && addOffset == old(addOffset)
      ensures inView && cursor == old(prevPoint) ==>
                p == ViewPoint(cursor.x + old(addOffset), cursor.y + old(addOffset)) &&
                prevPoint == old(prevPoint) && addOffset == old(addOffset) + 5
      ensures inView && cursor != old(prevPoint) ==> p == cursor && prevPoint == cursor && addOffset == 5
    {
      p := cursor;
      if !inView {
        p := ViewPoint(coord, coord);
      } else if p == prevPoint {
        p := ViewPoint(p.x + addOffset, p.y + addOffset);
        addOffset := addOffset + 5;
      } else {
        addOffset := 5;
        prevPoint := p;
      }
    }

    /// TextItem's constructor: the selection is cleared, the item is added and
    /// selected, and the document becomes dirty.
    method CreateTextItem(text: string, position: Point, font: Font := DefaultFont, transform: Transform := Identity)
      requires Valid()
      modifies this`dirty, scene
      ensures Valid()
      ensures scene.nodes == Added(old(scene.nodes), TextItem(position, transform, text, font))
      ensures dirty
    {
      var item := TextItem(position, transform, text, font);
      scene.ClearSelection();
      scene.AddItem(Page(item));
      scene.SetSelected(|scene.nodes| - 1, true);
      dirty := true;
    }

    /// BoxItem's constructor: as for text, with the default rectangle when
    /// none is given.
    method CreateBoxItem(position: Point, rect: Option<Rect> := None, transform: Transform := Identity, style: int16 := SolidLine)
      requires Valid()
      modifies this`dirty, scene
      ensures Valid()
      ensures scene.nodes == Added(old(scene.nodes), BoxItem(position, transform, if rect.None? then DefaultBoxRect() else rect.value, style))
      ensures dirty
    {
      var r := if rect.None? then DefaultBoxRect() else rect.value;
      var item := BoxItem(position, transform, r, style);
      scene.ClearSelection();
      scene.AddItem(Page(item));
      scene.SetSelected(|scene.nodes| - 1, true);
      dirty := true;
    }

    /// createPixmapItem: as for text.
    method CreatePixmapItem(pixmap: Pixmap, position: Point, transform: Transform := Identity)
      requires Valid()
      modifies this`dirty, scene
      ensures Valid()
      ensures scene.nodes == Added(old(scene.nodes), PixmapItem(position, transform, pixmap))
      ensures dirty
    {
      var item := PixmapItem(position, transform, pixmap);
      scene.ClearSelection();
      scene.AddItem(Page(item));
      scene.SetSelected(|scene.nodes| - 1, true);
      dirty := true;
    }

    /// readItemFromStream: reads one record and creates the item it
    /// describes. Gives the stream after the record, or None when the record
    /// is malformed.
    method ReadItemFromStream(stream: seq<Token>, offset: int := 0) returns (rest: Option<seq<Token>>)
      requires Valid()
      modifies this`dirty, scene
      ensures Valid()
      ensures match Decode(stream, offset)
              case Malformed => rest.None? && scene.nodes == old(scene.nodes) && dirty == old(dirty)
              case Record(item, after) =>
                rest == Some(after) && scene.nodes == AddedOpt(old(scene.nodes), item) &&
                dirty == (old(dirty) || item.Some?)
    {
      var d := Decode(stream, offset);
      if d.Malformed? {
        return None;
      }
      match d.item {
        case None =>
        case Some(TextItem(pos, transform, text, font)) =>
          CreateTextItem(text, pos, font, transform);
        case Some(BoxItem(pos, transform, rect, style)) =>
          CreateBoxItem(pos, Some(rect), transform, style);
        case Some(PixmapItem(pos, transform, pixmap)) =>
          CreatePixmapItem(pixmap, pos, transform);
      }
      rest := Some(d.rest);
    }

    /// copy: with exactly one item selected, the buffer becomes that item's
    /// record and the paste offset starts again at 5; otherwise nothing.
    method Copy()
      requires Valid()
      modifies this`copiedItem, this`pasteOffset
      ensures SelectedItem(scene.nodes).None? ==> copiedItem == old(copiedItem) && pasteOffset == old(pasteOffset)
      ensures SelectedItem(scene.nodes).Some? ==>
                copiedItem == EncodeSceneItem(scene.nodes[SelectedItem(scene.nodes).value].item) && pasteOffset == 5
      ensures SelectedItem(scene.nodes).Some? ==> copiedItem != []
    {
      var selected := SelectedItem(scene.nodes);
      if selected.None? {
        return;
      }
      copiedItem := [];
      pasteOffset := 5;
      copiedItem := copiedItem + EncodeSceneItem(scene.nodes[selected.value].item);
    }

    /// cut: copy, then the item is removed from the scene.
    method Cut()
      requires Valid()
      modifies this`copiedItem, this`pasteOffset, scene
      ensures Valid()
      ensures old(SelectedItem(scene.nodes)).None? ==>
                scene.nodes == old(scene.nodes) && copiedItem == old(copiedItem) && pasteOffset == old(pasteOffset)
      ensures old(SelectedItem(scene.nodes)).Some? ==>
                var i := old(SelectedItem(scene.nodes)).value;
                && copiedItem == EncodeSceneItem(old(scene.nodes[i].item)) && pasteOffset == 5
                && scene.nodes == old(scene.nodes[..i] + scene.nodes[i + 1..])
    {
      var selected := SelectedItem(scene.nodes);
      if selected.None? {
        return;
      }
      Copy();
      scene.RemoveAt(selected.value);
    }

    /// paste: with a non-empty buffer, the buffered record is read back moved
    /// by the paste offset, which then grows by 5; otherwise nothing.
    method Paste()
      requires Valid()
      modifies this`dirty, this`pasteOffset, scene
      ensures Valid()
      ensures copiedItem == [] ==> scene.nodes == old(scene.nodes) && pasteOffset == old(pasteOffset) && dirty == old(dirty)
      ensures copiedItem != [] ==>
                var pasted := DecodedItem(copiedItem, old(pasteOffset));
                && scene.nodes == AddedOpt(old(scene.nodes), pasted)
                && pasteOffset == old(pasteOffset) + 5
                && dirty == (old(dirty) || pasted.Some?)
    {
      if copiedItem == [] {
        return;
      }
      var _ := ReadItemFromStream(copiedItem, pasteOffset);
      pasteOffset := pasteOffset + 5;
    }

    /// rotate: every selected item turns 30 degrees further.
    method Rotate()
      requires Valid()
      modifies scene
      ensures Valid()
      ensures scene.nodes == RotateSelected(old(scene.nodes))
    {
      ghost var before := scene.nodes;
      var selected := SelectedIndices(scene.nodes);
      SelectedIndicesSorted(before);
      var k := 0;
      while k < |selected|
        invariant 0 <= k <= |selected|
        invariant scene.Valid() && |scene.nodes| == |before|
        invariant forall j :: 0 <= j < |before| ==>
                    scene.nodes[j] == if j in selected[..k] then before[j].(rotation := before[j].rotation + 30.0) else before[j]
      {
        var j := selected[k];
        assert j !in selected[..k];
        assert selected[..k + 1] == selected[..k] + [j];
        scene.SetRotation(j, scene.nodes[j].rotation + 30.0);
        k := k + 1;
      }
      assert selected[..k] == selected;
      forall j | 0 <= j < |before| && before[j].selected ensures j in selected {
        SelectedIndexListed(before, j);
      }
    }

    /// delete: when anything is selected and the user confirms, every
    /// selected item is removed, one after the other, and the document
    /// becomes dirty.
    method Delete(confirmed: bool)
      requires Valid()
      modifies this`dirty, scene
      ensures Valid()
      ensures SelectedIndices(old(scene.nodes)) != [] && confirmed ==> scene.nodes == Kept(old(scene.nodes)) && dirty
      ensures SelectedIndices(old(scene.nodes)) == [] || !confirmed ==> scene.nodes == old(scene.nodes) && dirty == old(dirty)
    {
      ghost var before := scene.nodes;
      var items := SelectedIndices(scene.nodes);
      if items == [] || !confirmed {
        return;
      }
      ghost var all := items;
      DeleteStart(before, all);
      ghost var b := all[|all| - 1] + 1;
      while items != []
        invariant scene.Valid()
        invariant |items| <= |all| && items == all[..|items|]
        invariant b == if items == [] then 0 else items[|items| - 1] + 1
        invariant b <= |before| && scene.nodes == Remaining(before, b)
      {
        var i := items[|items| - 1];
        ghost var next := if |items| == 1 then 0 else items[|items| - 2] + 1;
        DeleteStep(before, all, |items|, next, i);
        items := items[..|items| - 1];
        scene.RemoveAt(i);
        b := next;
      }
      assert before[0..] == before;
      dirty := true;
    }

    /// The writing part of save: the selection is cleared and the header
    /// and every item's record, topmost first, are written.
    method WriteItems() returns (written: Option<seq<Token>>)
      requires Valid()
      modifies scene
      ensures Valid()
      ensures written == Some(SaveStream(TopmostFirst(old(scene.nodes))))
      ensures scene.nodes == Deselected(old(scene.nodes))
    {
      ghost var before := scene.nodes;
      scene.ClearSelection();
      var stream := WriteStream(TopmostFirst(scene.nodes));
      SavedItemsIgnoreRotationAndSelection(before);
      written := Some(stream);
    }

    /// save's choice of file name: with no file name yet, the name chosen in
    /// the dialog with `.pgd` made sure of. `named` is false when the dialog
    /// is cancelled, and then nothing changes.
    method ChooseFileName(chosen: string) returns (named: bool)
      modifies this`filename
      ensures named == (old(filename) != "" || chosen != "")
      ensures filename == if old(filename) == "" && chosen != "" then PgdFileName(chosen) else old(filename)
    {
      named := true;
      if filename == "" {
        if chosen == "" {
          return false;
        }
        filename := PgdFileName(chosen);
      }
    }

    /// save, with the warning box of its error handler shown: once a file
    /// name is known, the file gets the header and every item's record,
    /// topmost first, after the selection is cleared, if it can be written.
    /// Dirty is cleared in every case but the cancelled one, even when the
    /// file could not be written.
    method Save(chosen: string, canWrite: bool) returns (written: Option<seq<Token>>)
      requires Valid()
      modifies this`filename, this`dirty, scene
      ensures Valid()
      ensures old(filename) == "" && chosen == "" ==>
                written.None? && filename == old(filename) && dirty == old(dirty) && scene.nodes == old(scene.nodes)
      ensures old(filename) != "" || chosen != "" ==>
                && filename == (if old(filename) == "" then PgdFileName(chosen) else old(filename))
                && !dirty
                && (canWrite ==> written == Some(SaveStream(TopmostFirst(old(scene.nodes)))) && scene.nodes == Deselected(old(scene.nodes)))
                && (!canWrite ==> written.None? && scene.nodes == old(scene.nodes))
    {
      var named := ChooseFileName(chosen);
      if !named {
        return None;
      }
      if !canWrite {
        written := None;
      } else {
        written := WriteItems();
      }
      dirty := false;
    }

    /// save as the code is written: the error handler calls a warning box
    /// that the Qt binding in use does not have, so a file that cannot be
    /// written makes an exception leave save (`escaped`) before Dirty is
    /// cleared.
    method SaveAsWritten(chosen: string, canWrite: bool) returns (written: Option<seq<Token>>, escaped: bool)
      requires Valid()
      modifies this`filename, this`dirty, scene
      ensures Valid()
      ensures escaped <==> (old(filename) != "" || chosen != "") && !canWrite
      ensures old(filename) == "" && chosen == "" ==>
                written.None? && filename == old(filename) && dirty == old(dirty) && scene.nodes == old(scene.nodes)
      ensures old(filename) != "" || chosen != "" ==>
                && filename == (if old(filename) == "" then PgdFileName(chosen) else old(filename))
                && (canWrite ==> written == Some(SaveStream(TopmostFirst(old(scene.nodes)))) && scene.nodes == Deselected(old(scene.nodes)) && !dirty)
                && (!canWrite ==> written.None? && scene.nodes == old(scene.nodes) && dirty == old(dirty))
    {
      var named := ChooseFileName(chosen);
      if !named {
        return None, false;
      }
      if !canWrite {
        return None, true;
      }
      written := WriteItems();
      escaped := false;
      dirty := false;
    }

    /// open's emptying of the scene: the bottom item is removed, one at a
    /// time, until none is left.
    method RemoveAllItems()
      requires Valid()
      modifies scene
      ensures Valid() && scene.nodes == []
    {
      while |scene.nodes| > 0
        invariant scene.Valid()
        decreases |scene.nodes|
      {
        scene.RemoveAt(0);
      }
    }

    /// open's reading loop: records are read one after the other until the
    /// stream ends, or until a record is malformed (`complete` is then false).
    method ReadItems(stream: seq<Token>) returns (complete: bool)
      requires Valid()
      modifies this`dirty, scene
      ensures Valid()
      ensures complete == DecodeAll(stream).complete
      ensures scene.nodes == AddedAll(old(scene.nodes), DecodeAll(stream).items)
      ensures dirty == (old(dirty) || DecodeAll(stream).items != [])
    {
      ghost var start := scene.nodes;
      ghost var done: seq<PageItem> := [];
      var rest := stream;
      complete := true;
      while rest != []
        invariant scene.Valid()
        invariant scene.nodes == AddedAll(start, done)
        invariant dirty == (old(dirty) || done != [])
        invariant DecodeAll(stream) == Load(done + DecodeAll(rest).items, DecodeAll(rest).complete)
        invariant complete
        decreases |rest|
      {
        ghost var d := Decode(rest, 0);
        var after := ReadItemFromStream(rest);
        if after.None? {
          complete := false;
          DecodeAllFirst(rest, done);
          return;
        }
        ghost var created := if d.item.Some? then [d.item.value] else [];
        ReadStep(done, created, d.item, start);
        DecodeAllFirst(rest, done);
        done := done + created;
        rest := after.value;
      }
      assert done + [] == done;
    }

    /// open once a file is chosen: if the file can be read, the scene is
    /// emptied and the borders put back before the header is checked; then
    /// records are read until the stream ends (or a record is malformed).
    method LoadDocument(file: Option<seq<Token>>) returns (outcome: OpenOutcome)
      requires Valid()
      modifies this`dirty, scene
      ensures Valid()
      ensures file.None? ==> outcome == CannotOpen && scene.nodes == old(scene.nodes)
      ensures file.Some? ==> outcome == OpenResult(file.value) && scene.nodes == OpenedNodes(file.value)
      ensures RaisesIOError(outcome) ==> dirty == old(dirty)
    {
      if file.None? {
        return CannotOpen;
      }
      RemoveAllItems();
      scene.AddBorders();
      assert scene.nodes == BorderNodes();
      var header := ReadHeader(file.value);
      if header.BadMagic? {
        outcome := NotPgdFile;
      } else if header.BadVersion? {
        outcome := UnknownVersion;
      } else {
        var complete := ReadItems(header.rest);
        outcome := if complete then Opened else BrokenRecord;
      }
    }

    /// open, with the warning box of its error handler shown: the chosen
    /// file becomes the file name and is loaded. Dirty is cleared in every
    /// case but the cancelled one, even when the file is refused.
    method Open(chosen: string, file: Option<seq<Token>>) returns (outcome: OpenOutcome)
      requires Valid()
      modifies this`filename, this`dirty, scene
      ensures Valid()
      ensures chosen == "" ==>
                outcome == Cancelled && filename == old(filename) && dirty == old(dirty) && scene.nodes == old(scene.nodes)
      ensures chosen != "" ==> filename == chosen && !dirty
      ensures chosen != "" && file.None? ==> outcome == CannotOpen && scene.nodes == old(scene.nodes)
      ensures chosen != "" && file.Some? ==> outcome == OpenResult(file.value) && scene.nodes == OpenedNodes(file.value)
    {
      if chosen == "" {
        return Cancelled;
      }
      filename := chosen;
      outcome := LoadDocument(file);
      dirty := false;
    }

    /// open as the code is written: the error handler calls a warning box
    /// that the Qt binding in use does not have, so a file that cannot be
    /// opened or is refused at its header makes an exception leave open
    /// (`escaped`) before Dirty is cleared. The scene is already emptied and
    /// the borders put back when the header is refused.
    method OpenAsWritten(chosen: string, file: Option<seq<Token>>) returns (outcome: OpenOutcome, escaped: bool)
      requires Valid()
      modifies this`filename, this`dirty, scene
      ensures Valid()
      ensures escaped <==> RaisesIOError(outcome)
      ensures chosen == "" ==>
                outcome == Cancelled && filename == old(filename) && dirty == old(dirty) && scene.nodes == old(scene.nodes)
      ensures chosen != "" ==> filename == chosen && dirty == (if escaped then old(dirty) else false)
      ensures chosen != "" && file.None? ==> outcome == CannotOpen && scene.nodes == old(scene.nodes)
      ensures chosen != "" && file.Some? ==> outcome == OpenResult(file.value) && scene.nodes == OpenedNodes(file.value)
    {
      if chosen == "" {
        return Cancelled, false;
      }
      filename := chosen;
      outcome := LoadDocument(file);
      escaped := RaisesIOError(outcome);
      if !escaped {
        dirty := false;
      }
    }

    /// BoxItem.setStyle: the box at `i` gets the pen style, and the document
    /// becomes dirty.
    method SetBoxStyle(i: nat, style: int16)
      requires Valid() && i < |scene.nodes| && scene.nodes[i].item.Page? && scene.nodes[i].item.item.BoxItem?
      modifies this`dirty, scene
      ensures Valid() && dirty
      ensures scene.nodes == old(scene.nodes[i := scene.nodes[i].(item := Page(scene.nodes[i].item.item.(style := style)))])
    {
      var box := scene.nodes[i].item.item;
      scene.SetPageItem(i, box.(style := style));
      dirty := true;
    }

    /// BoxItem.keyPressEvent: Shift with an arrow key resizes the box at `i`
    /// as KeyResize says and makes the document dirty; any other key changes
    /// nothing.
    method BoxKeyPress(i: nat, key: Key, shift: bool)
      requires Valid() && i < |scene.nodes| && scene.nodes[i].item.Page? && scene.nodes[i].item.item.BoxItem?
      modifies this`dirty, scene
      ensures Valid()
      ensures var box := old(scene.nodes[i].item.item);
              match KeyResize(box.rect, key, shift)
              case None => scene.nodes == old(scene.nodes) && dirty == old(dirty)
              case Some(r) => scene.nodes == old(scene.nodes[i := scene.nodes[i].(item := Page(box.(rect := r)))]) && dirty
    {
      var box := scene.nodes[i].item.item;
      var resized := KeyResize(box.rect, key, shift);
      if resized.Some? {
        scene.SetPageItem(i, box.(rect := resized.value));
        dirty := true;
      }
    }
  }

  /// The scene while delete's loop runs: the items below `b` as they were,
  /// the selected ones from `b` up already removed.
  ghost function Remaining(before: seq<Node>, b: nat): seq<Node>
    requires b <= |before|
  {
    before[..b] + Kept(before[b..])
  }

  /// One pass of delete's loop: removing the selected item at `i`, the
  /// highest index still to go, leaves the scene of the next pass.
  lemma DeleteStep(before: seq<Node>, all: seq<nat>, n: nat, b': nat, i: nat)
    requires all == SelectedIndices(before) && 0 < n <= |all| && i == all[n - 1]
    requires b' == if n == 1 then 0 else all[n - 2] + 1
    ensures b' <= i < |before|
    ensures var s := Remaining(before, i + 1); s[..i] + s[i + 1..] == Remaining(before, b')
  {
    SelectedIndicesListsSelection(before);
    forall q | 0 <= q < |all|
      ensures all[q] < b' || all[q] >= i
    {
      if q < n - 1 {
        assert all[q] <= all[n - 2];
      } else {
        assert all[n - 1] <= all[q];
      }
    }
    assert forall t :: b' <= t < i ==> !before[t].selected;
    KeptSkip(before, b', i);
    DropAt(before, i, Kept(before[i + 1..]));
  }

  /// Between two neighbouring selected items nothing is selected, so the
  /// kept part from the lower bound is that stretch and what is kept after
  /// the upper one.
  lemma KeptSkip(before: seq<Node>, b': nat, i: nat)
    requires b' <= i < |before| && before[i].selected
    requires forall t :: b' <= t < i ==> !before[t].selected
    ensures before[..i] + Kept(before[i + 1..]) == before[..b'] + Kept(before[b'..])
  {
    assert before[b'..] == before[b'..i] + [before[i]] + before[i + 1..];
    KeptAppend(before[b'..i] + [before[i]], before[i + 1..]);
    KeptAppend(before[b'..i], [before[i]]);
    KeptUnselected(before[b'..i]);
    assert Kept([before[i]]) == [];
    assert before[..i] == before[..b'] + before[b'..i];
  }

  /// Nothing after the last selected item is selected, so delete starts
  /// from the whole scene.
  lemma {:induction false} DeleteStart(before: seq<Node>, all: seq<nat>)
    requires all == SelectedIndices(before) && all != []
    ensures all[|all| - 1] + 1 <= |before|
    ensures Remaining(before, all[|all| - 1] + 1) == before
  {
    NoneSelectedAboveLast(before);
    var last := all[|all| - 1];
    assert forall t :: last < t < |before| ==> !before[t].selected;
    KeptTail(before, last + 1);
  }

  lemma {:induction false} KeptTail(before: seq<Node>, b: nat)
    requires b <= |before| && forall t :: b <= t < |before| ==> !before[t].selected
    ensures Remaining(before, b) == before
  {
    KeptUnselected(before[b..]);
    assert before == before[..b] + before[b..];
  }

  /// One pass of open's reading loop: the item a record creates joins those
  /// already created, both in the scene and in what the whole stream yields.
  lemma ReadStep(done: seq<PageItem>, created: seq<PageItem>, item: Option<PageItem>, start: seq<Node>)
    requires created == if item.Some? then [item.value] else []
    ensures AddedOpt(AddedAll(start, done), item) == AddedAll(start, done + created)
  {
    if item.Some? {
      assert (done + created)[..|done|] == done;
    } else {
      assert done + created == done;
    }
  }

  /// Removing the item at `i` from the scene `before[..i + 1] + tail`.
  lemma DropAt(before: seq<Node>, i: nat, tail: seq<Node>)
    requires i < |before|
    ensures var s := before[..i + 1] + tail; s[..i] + s[i + 1..] == before[..i] + tail
  {
    var s := before[..i + 1] + tail;
    assert s[..i] == before[..i];
    assert s[i + 1..] == tail;
  }
}
