/**
 * Short sessions with the main form, each stating what the user sees at the
 * end of a sequence of button presses.
 */
module Scenarios {
  import opened Wrappers
  import opened Geometry
  import opened Items
  import opened Codec
  import opened DocumentFile
  import opened GraphicsScene
  import opened PageDesigner

  /// Copy the one selected item, then paste twice: the copies land 5 and 10
  /// units down and right of the original, each paste leaving its copy as
  /// the one selected item.
  method CopyPastePaste(form: MainForm, item: PageItem)
    requires form.Valid()
    requires SelectedItem(form.scene.nodes).Some?
    requires form.scene.nodes[SelectedItem(form.scene.nodes).value].item == Page(item)
    modifies form`copiedItem, form`pasteOffset, form`dirty, form.scene
    ensures form.Valid() && form.dirty && form.pasteOffset == 15
    ensures |form.scene.nodes| == old(|form.scene.nodes|) + 2
    ensures form.scene.nodes[|form.scene.nodes| - 2].item == Page(Moved(item, 5))
    ensures form.scene.nodes[|form.scene.nodes| - 1].item == Page(Moved(item, 10))
    ensures SelectedItem(form.scene.nodes) == Some(|form.scene.nodes| - 1)
  {
    form.Copy();
    assert form.copiedItem == Encode(item) + [];
    DecodeEncode(item, 5, []);
    DecodeEncode(item, 10, []);
    form.Paste();
    form.Paste();
    AddedIsSelectedItem(old(Added(form.scene.nodes, Moved(item, 5))), Moved(item, 10));
  }

  /// Adding three items with the cursor kept still: the first goes at the
  /// cursor, the next two 5 and then 10 units further down and right.
  method AddThreeAtCursor(form: MainForm, cursor: ViewPoint) returns (a: ViewPoint, b: ViewPoint, c: ViewPoint)
    requires cursor != form.prevPoint
    modifies form`prevPoint, form`addOffset
    ensures a == cursor
    ensures b == ViewPoint(cursor.x + 5, cursor.y + 5)
    ensures c == ViewPoint(cursor.x + 10, cursor.y + 10)
    ensures form.addOffset == 15
  {
    a := form.Position(cursor, true, 36);
    b := form.Position(cursor, true, 36);
    c := form.Position(cursor, true, 36);
  }

  /// A new form with one default box: saving and opening the file again
  /// gives the borders and that same box, selected, and a clean document.
  method SaveAndReopenBox(at: Point)
    returns (form: MainForm)
    ensures form.Valid() && !form.dirty
    ensures |form.scene.nodes| == 3
    ensures form.scene.nodes[2].item == Page(BoxItem(at, Identity, DefaultBoxRect(), SolidLine))
    ensures SelectedItem(form.scene.nodes) == Some(2)
  {
    form := new MainForm();
    form.CreateBoxItem(at);
    ghost var nodes := form.scene.nodes;
    var written := form.Save("page", true);
    ReopenOneItem(BoxItem(at, Identity, DefaultBoxRect(), SolidLine));
    var outcome := form.Open("page.pgd", written);
  }

  /// The file saved from the two borders and one page item opens to the two
  /// borders and that item, selected.
  lemma ReopenOneItem(item: PageItem)
    ensures var nodes := Added(BorderNodes(), item);
            var reopened := OpenedNodes(SaveStream(TopmostFirst(nodes)));
            && OpenResult(SaveStream(TopmostFirst(nodes))) == Opened
            && |reopened| == 3 && reopened[2].item == Page(item)
            && reopened[0].item == BorderNodes()[0].item && reopened[1].item == BorderNodes()[1].item
            && SelectedItem(reopened) == Some(2)
  {
    var nodes := Added(BorderNodes(), item);
    ReopenSaved(nodes);
    var top := TopmostFirst(nodes);
    assert top[1..][1..] == [top[2]];
    assert PageItems(top[1..][1..]) == [];
    assert PageItems(top[1..]) == [];
    assert PageItems(top) == [item];
  }

  /// A dirty document whose file cannot be written. As the code is written
  /// the failed save leaves the document dirty (`dirtyAsWritten`); with the
  /// warning box shown, save clears Dirty (`dirtyIntended`).
  method FailedSaveOfDirtyDocument(form: MainForm) returns (dirtyAsWritten: bool, dirtyIntended: bool)
    requires form.Valid() && form.dirty && form.filename != ""
    modifies form`filename, form`dirty, form.scene
    ensures dirtyAsWritten && !dirtyIntended
  {
    var _, _ := form.SaveAsWritten("", false);
    dirtyAsWritten := form.dirty;
    var _ := form.Save("", false);
    dirtyIntended := form.dirty;
  }

  /// A dirty document, then an open of an empty file, which has no magic
  /// number. As the code is written the refused file leaves the document
  /// dirty with only the borders on the page; with the warning box shown,
  /// open clears Dirty.
  method RefusedOpenOfDirtyDocument(form: MainForm) returns (dirtyAsWritten: bool, dirtyIntended: bool)
    requires form.Valid() && form.dirty
    modifies form`filename, form`dirty, form.scene
    ensures dirtyAsWritten && !dirtyIntended
    ensures form.scene.nodes == BorderNodes()
  {
    RefusedFileLeavesBorders([]);
    var outcome, escaped := form.OpenAsWritten("empty.pgd", Some([]));
    dirtyAsWritten := form.dirty;
    outcome := form.Open("empty.pgd", Some([]));
    dirtyIntended := form.dirty;
  }
}
