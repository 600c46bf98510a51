# Page Designer: document model

The page designer lays out text, boxes and images on a US Letter page. This
project models the part of it that is a program on its own, apart from the
Qt widgets:

- **The item record.** Each page item is written as a record: a type tag
  (`"Text"`, `"Box"` or `"Pixmap"`), the item's position, its transform, then
  a payload of its kind. Text carries its plain text and font. A box carries
  its rectangle and an int16 pen style. A pixmap carries the image. Records
  carry no length. Reading one back can move it by a paste offset.
- **The `.pgd` document file.** It starts with the int32 magic number
  `0x70616765` ("page") and the int16 version `1`. The records of the scene's
  items follow, back to back, until the end of the file. A saved file name
  gets `.pgd` appended unless it already ends with it, in any mix of cases.
- **The main form's state.** This is the scene with its selection. Alongside
  it are the file name, a one-record clipboard with its paste offset, the
  add-position counter and the application-wide Dirty flag. The operations
  are those the buttons trigger: add, copy, cut, paste, rotate, delete, save
  and open.
- **Box geometry.** A box has a default rectangle. Shift+arrow keys move its
  right or bottom edge by a quarter of the point size, with nothing to stop
  the box turning inside out.

Modules, in dependency order:

- `Wrappers` and `Geometry` (`geometry.dfy`): points, rectangles and transforms as values.
- `Items` (`items.dfy`): the three item kinds, the default box, paste moves and key resizing.
- `Codec` (`codec.dfy`): a data stream is a sequence of field tokens, one per value the record writes. The byte layout inside a field is Qt's and is not modelled.
- `DocumentFile` (`docfile.dfy`): the header, the whole-file stream, and the file-name rule.
- `GraphicsScene` (`scene.dfy`): the scene as a class over a sequence of nodes. Each node is an item, its rotation and whether it is selected. The stacking order is the sequence order. The specification functions sit alongside the class: `SelectedItem`, `Kept` and `RotateSelected`.
- `PageDesigner` (`mainform.dfy`): the main form as a class whose methods update its fields and its scene.
- `Scenarios` (`scenarios.dfy`): short sessions with the form, each with a stated outcome.

Behaviour of the code that the model keeps as written:

- `scene.items()` lists items topmost first, so save writes the top item first. Open creates items in file order, each on top of the last. A save followed by an open therefore reverses the stacking order (`PageDesigner.ReopenSaved`).
- rotate calls `setRotation`, which is an item property kept apart from `transform()`. The record writes `transform()`, so a rotation is lost on save and on copy (`GraphicsScene.SavedItemsIgnoreRotationAndSelection`).
- A record with an unknown tag is not an error. Reading it consumes the tag, position and transform and creates nothing.
- The error handlers of save and open call `QtGui.QMessageBox.warning`. The binding the program imports is PyQt5, where `QMessageBox` lives in `QtWidgets`, so the handler itself raises. The exception leaves save or open before their closing `Dirty = False`. On a file that cannot be written, cannot be opened or is refused at its header, the form's own code therefore does not assign Dirty. (A refused header comes after open has removed every item, and the `itemChange` of each text or box item removed sets Dirty; see the `LoadDocument` and `OpenAsWritten` lines under Left out.) With the warning shown, as the handlers evidently intend, save and open clear Dirty in every case but a cancelled file dialog. `Save` and `Open` model that intended behaviour. `SaveAsWritten` and `OpenAsWritten` model the code as written (see Findings).
- open empties the scene and puts the borders back before it checks the header. A refused file therefore leaves an empty page.
- cut does not set Dirty itself.

## Model

| member | source | states |
|---|---|---|
| `Items.DefaultBoxRect` | Chapter12/pagedesignerPyside.py:503-505 | the default box is 20 point sizes wide and 2 tall, centred on the box's position |
| `Items.Moved` | Chapter12/pagedesignerPyside.py:351-352 | the item keeps its kind, transform and payload; a paste offset d moves its position d right and d down, and offset 0 leaves it where it was |
| `Items.MovedTwice` | Chapter12/pagedesignerPyside.py:351-352 | `Moved` composes additively: moving by a and then by b is moving by a + b (each paste itself decodes the original record at the current offset) |
| `Items.KeyResize` | Chapter12/pagedesignerPyside.py:569-591 | the event is handled iff Shift is held with an arrow key; Left/Right move only the right edge by -/+ PointSize/4, Up/Down only the bottom edge; the left and top edges never move |
| `Items.KeyResizeUndo` | Chapter12/pagedesignerPyside.py:569-591 | Shift+Right undoes Shift+Left and Shift+Down undoes Shift+Up |
| `Items.ShrinkUnbounded` | Chapter12/pagedesignerPyside.py:569-591 | after n presses of Shift+Left the right edge has moved exactly n steps left and nothing else has changed: there is no clamping |
| `Items.DefaultBoxInverts` | Chapter12/pagedesignerPyside.py:503-505 | from the 81st press of Shift+Left on, the default box is inside out (negative width) |
| `Geometry.Shifted` | Chapter12/pagedesignerPyside.py:351-352 | `position + QPointF(offset, offset)` moves the point by exactly the offset on both axes |
| `Codec.Encode` | Chapter12/pagedesignerPyside.py:369-381 | a record is 4 or 5 fields: the item's tag, its position and its transform first |
| `Codec.EncodeSceneItem` | Chapter12/pagedesignerPyside.py:369-381 | a scene item writes nothing iff it is not one of the three page item kinds (the border rectangles), and a page item writes its record |
| `Codec.Decode` | Chapter12/pagedesignerPyside.py:345-367 | reading a record consumes at least tag, position and transform, one more field for an item it creates, and leaves a suffix of the stream |
| `Codec.DecodeEncode` | Chapter12/pagedesignerPyside.py:345-381 | reading back a written record, whatever follows it, creates the same item moved by the offset and stops exactly at the record's end |
| `Codec.DecodeEncodeExact` | Chapter12/pagedesignerPyside.py:345-381 | with offset 0 the round trip is exact: same kind, position, transform and payload |
| `Codec.DecodeUnknownTag` | Chapter12/pagedesignerPyside.py:349-367 | an unknown tag consumes tag, position and transform and creates no item |
| `Codec.EncodeAllAppend` | Chapter12/pagedesignerPyside.py:333-334 | writing two runs of items writes the first run's records and then the second's |
| `Codec.DecodeAll` | Chapter12/pagedesignerPyside.py:298-299 | reading records to the end of a stream creates at most one item per four fields |
| `Codec.DecodeAllEncodeAll` | Chapter12/pagedesignerPyside.py:298-299 | records are self-delimiting: the records of a run of scene items read back, one call at a time to the end, as its page items in the same order, ending on a record boundary |
| `DocumentFile.ReadHeader` | Chapter12/pagedesignerPyside.py:292-297 | the records are reached iff the stream starts with the magic number and then version 1; a wrong or missing magic number is the first refusal |
| `DocumentFile.SaveThenLoad` | Chapter12/pagedesignerPyside.py:292-299 | loading what save wrote passes the header and gives back every page item in the order written, ending exactly at the end |
| `DocumentFile.HeaderGate` | Chapter12/pagedesignerPyside.py:292-297 | a wrong magic number or a wrong version refuses the file before any record is read, however good the records are |
| `DocumentFile.PgdFileName` | Chapter12/pagedesignerPyside.py:320-321 | the saved name always ends with `.pgd` in some case; it is the chosen name iff that already had the extension, and otherwise exactly the chosen name with `.pgd` appended |
| `DocumentFile.PgdFileNameIdempotent` | Chapter12/pagedesignerPyside.py:320-321 | fixing a name that was already fixed changes nothing |
| `GraphicsScene.BorderNodes` | Chapter12/pagedesignerPyside.py:112-121 | the border is two unselected rectangles, neither of them a page item |
| `GraphicsScene.TopmostFirst` | Chapter12/pagedesignerPyside.py:333 | `scene.items()` lists every item, the topmost first |
| `GraphicsScene.SelectedIndicesSorted` | Chapter12/pagedesignerPyside.py:202 | `selectedItems()` lists only selected items, each once; Qt promises no order, and the model lists them in ascending stacking order (what delete, rotate and selectedItem do does not depend on the order) |
| `GraphicsScene.SelectedIndexListed` | Chapter12/pagedesignerPyside.py:202 | no selected item is missing from `selectedItems()` |
| `GraphicsScene.SelectedIndicesListsSelection` | Chapter12/pagedesignerPyside.py:242 | `selectedItems()` lists exactly the selected items (in the ascending order the model picks) |
| `GraphicsScene.SingleSelection` | Chapter12/pagedesignerPyside.py:201-205 | when one item is the only one selected, `selectedItems()` is that item alone |
| `GraphicsScene.SelectedItem` | Chapter12/pagedesignerPyside.py:201-205 | there is a selected item iff exactly one item is selected, and it is that one |
| `GraphicsScene.Deselected` | Chapter12/pagedesignerPyside.py:328 | `clearSelection` unselects every item and changes nothing else |
| `GraphicsScene.Added` | Chapter12/pagedesignerPyside.py:193-195 | creating an item deselects the others and puts it on top, selected and unrotated |
| `GraphicsScene.AddedIsSelectedItem` | Chapter12/pagedesignerPyside.py:193-195 | after an item is created it is the selected item |
| `GraphicsScene.AddedAll` | Chapter12/pagedesignerPyside.py:298-299 | creating items one after another keeps the earlier items and stacks the new ones in order |
| `GraphicsScene.AddedAllSelectsLast` | Chapter12/pagedesignerPyside.py:298-299 | after a run of creations the last item created is the selected item |
| `GraphicsScene.Kept` | Chapter12/pagedesignerPyside.py:249-252 | what delete leaves is no longer than the scene and contains no selected item |
| `GraphicsScene.KeptMembers` | Chapter12/pagedesignerPyside.py:249-252 | delete keeps exactly the unselected items |
| `GraphicsScene.KeptAppend` | Chapter12/pagedesignerPyside.py:249-252 | deleting from a scene in two parts deletes from each part |
| `GraphicsScene.KeptUnselected` | Chapter12/pagedesignerPyside.py:249-252 | with nothing selected delete keeps everything in order |
| `GraphicsScene.RotateSelected` | Chapter12/pagedesignerPyside.py:236-237 | exactly the selected items turn 30 degrees further; items and selection are unchanged |
| `GraphicsScene.SavedItemsIgnoreRotationAndSelection` | Chapter12/pagedesignerPyside.py:235-237 | rotating or deselecting items does not change the list of items save writes, so rotation is lost on save |
| `GraphicsScene.Scene.AddBorders` | Chapter12/pagedesignerPyside.py:112-121 | the two border rectangles go on top of the scene |
| `PageDesigner.RefusedFileLeavesBorders` | Chapter12/pagedesignerPyside.py:284-297 | a file refused at its header leaves only the borders on the page |
| `PageDesigner.ReopenSaved` | Chapter12/pagedesignerPyside.py:270-342 | opening what save wrote succeeds and gives the two borders, then every page item, topmost first, with the last one read selected |
| `PageDesigner.MainForm.constructor` | Chapter12/pagedesignerPyside.py:58-74 | a new form has no file name, an empty clipboard, paste and add offsets 5, the borders on the page, and is clean |
| `PageDesigner.MainForm.Position` | Chapter12/pagedesignerPyside.py:151-163 | outside the view a new item goes on the diagonal at the random coordinate; at an unmoved cursor it goes addOffset further and addOffset grows by 5; at a moved cursor addOffset restarts at 5 |
| `PageDesigner.MainForm.CreateTextItem` | Chapter12/pagedesignerPyside.py:462-475 | the text item is added on top as the selected item and the document becomes dirty |
| `PageDesigner.MainForm.CreateBoxItem` | Chapter12/pagedesignerPyside.py:498-516 | the box, with the default rectangle when none is given, is added on top as the selected item and the document becomes dirty |
| `PageDesigner.MainForm.CreatePixmapItem` | Chapter12/pagedesignerPyside.py:186-197 | the pixmap item is added on top as the selected item and the document becomes dirty |
| `PageDesigner.MainForm.ReadItemFromStream` | Chapter12/pagedesignerPyside.py:345-367 | a good record creates its item, moved by the offset, and gives the rest of the stream; a malformed one changes nothing |
| `PageDesigner.MainForm.Copy` | Chapter12/pagedesignerPyside.py:208-215 | with no single selected item nothing changes; otherwise the clipboard becomes that item's record, which is never empty because a border is never selected, and the paste offset 5 |
| `PageDesigner.MainForm.Cut` | Chapter12/pagedesignerPyside.py:218-224 | with no single selected item nothing changes; otherwise copy, and that item leaves the scene |
| `PageDesigner.MainForm.Paste` | Chapter12/pagedesignerPyside.py:227-232 | an empty clipboard changes nothing; otherwise the clipboard's item is added moved by the paste offset, which grows by 5 |
| `PageDesigner.MainForm.Rotate` | Chapter12/pagedesignerPyside.py:235-237 | the scene becomes `RotateSelected` of what it was |
| `PageDesigner.MainForm.Delete` | Chapter12/pagedesignerPyside.py:241-255 | with a selection and confirmation, the scene becomes `Kept` of what it was and the document dirty; otherwise nothing changes |
| `DocumentFile.WriteStream` | Chapter12/pagedesignerPyside.py:330-334 | the writing loop produces the header and each item's record in turn, and the stream it writes loads back as the page items in order, complete |
| `PageDesigner.MainForm.WriteItems` | Chapter12/pagedesignerPyside.py:326-334 | the selection is cleared and the header and every item's record, topmost first, are written |
| `PageDesigner.MainForm.ChooseFileName` | Chapter12/pagedesignerPyside.py:312-322 | with no file name yet the chosen name, fixed to `.pgd`, becomes the file name; a cancelled dialog (and only that) leaves save with nothing changed |
| `PageDesigner.MainForm.Save` | Chapter12/pagedesignerPyside.py:311-342 | save with its warning shown: with no name and a cancelled dialog nothing changes; otherwise the name is fixed to `.pgd`, the file gets `SaveStream` of the scene when writable, and Dirty is cleared either way |
| `PageDesigner.MainForm.SaveAsWritten` | Chapter12/pagedesignerPyside.py:311-342 | save as written: an exception escapes exactly when a named file cannot be written, and then Dirty and the scene keep their values; a written file clears Dirty |
| `PageDesigner.MainForm.RemoveAllItems` | Chapter12/pagedesignerPyside.py:284-288 | popping and removing items until none is left empties the scene |
| `PageDesigner.MainForm.ReadItems` | Chapter12/pagedesignerPyside.py:298-299 | reading records to the end creates `DecodeAll`'s items in order on top of the scene |
| `PageDesigner.MainForm.LoadDocument` | Chapter12/pagedesignerPyside.py:281-299 | an unreadable file keeps the scene; otherwise the outcome and the scene are those of `OpenResult` and `OpenedNodes`; on the paths that raise IOError the form's own code does not assign Dirty |
| `PageDesigner.MainForm.Open` | Chapter12/pagedesignerPyside.py:270-308 | open with its warning shown: a cancelled dialog changes nothing; an unreadable file keeps the scene; otherwise the outcome and the scene are those of `OpenResult` and `OpenedNodes`; the name is set and Dirty cleared |
| `PageDesigner.MainForm.OpenAsWritten` | Chapter12/pagedesignerPyside.py:270-308 | open as written: the same name, outcome and scene, but an exception escapes exactly on the IOError paths (cannot open, bad magic, bad version), and then Dirty keeps its value |
| `PageDesigner.MainForm.SetBoxStyle` | Chapter12/pagedesignerPyside.py:561-565 | the box gets the new pen style and the document becomes dirty |
| `PageDesigner.MainForm.BoxKeyPress` | Chapter12/pagedesignerPyside.py:569-591 | a handled key resizes the box as `KeyResize` says and makes the document dirty; any other key changes neither the box nor Dirty |
| `Scenarios.CopyPastePaste` | Chapter12/pagedesignerPyside.py:208-232 | copying an item and pasting twice adds copies 5 and then 10 units away, the last one selected, and leaves the paste offset at 15 |
| `Scenarios.AddThreeAtCursor` | Chapter12/pagedesignerPyside.py:151-163 | three adds at a still cursor land at the cursor, then 5 and 10 units further |
| `Scenarios.SaveAndReopenBox` | Chapter12/pagedesignerPyside.py:270-342 | a box saved and opened again is the same box, selected, above the borders, in a clean document |
| `Scenarios.ReopenOneItem` | Chapter12/pagedesignerPyside.py:270-342 | a file saved with one page item opens to the two borders and then that item, selected |
| `Scenarios.FailedSaveOfDirtyDocument` | Chapter12/pagedesignerPyside.py:334-342 | a dirty document whose file cannot be written stays dirty as the code is written, and becomes clean with the warning shown |
| `Scenarios.RefusedOpenOfDirtyDocument` | Chapter12/pagedesignerPyside.py:292-307 | a dirty document, then an empty file opened: as written it stays dirty with only the borders on the page, and with the warning shown it becomes clean |

## Left out

- The byte layout of the Qt types inside a data stream (QString, QPointF, QTransform, QFont, QRectF, QPixmap, version Qt_4_2): each field is one opaque token that reads back as written.
- Codec.Decode: a field missing at the end of the stream, or of another type than the tag calls for, gives `Malformed`. Qt instead reads default values past the end or reinterprets the bytes, which cannot be stated without the byte layout.
- PageDesigner.MainForm.ReadItems: stops at the first malformed record and keeps the items read so far. The code, which cannot tell a malformed record, keeps reading until the end of the file.
- PageDesigner.MainForm.Position: returns the point in the form's own coordinates, the ones `mapFromGlobal` gives and `view.geometry()` is tested in. The program then passes that point to `view.mapToScene`, which expects viewport coordinates, so the item lands off by the view's offset inside the form. Neither mapping is modelled. The random coordinate is a parameter in [36, 144].
- PageDesigner.MainForm.Cut: does not set Dirty. In the running program, removing a text or box item from the scene calls its `itemChange` with a scene change, and `TextItem.itemChange` and `BoxItem.itemChange` set Dirty for every change but `ItemSelectedChange`. The model's Dirty changes only where the form's own code assigns it. Moves, transforms and rotations do not reach `itemChange`, because no item sets `ItemSendsGeometryChanges`, so `Rotate` leaving Dirty alone is the program's behaviour.
- PageDesigner.MainForm.LoadDocument: keeps Dirty on a refused header. In the running program, emptying the scene first removes every item, `removeItem` always reports a scene change to `itemChange`, and each text or box item removed sets Dirty there.
- PageDesigner.MainForm.OpenAsWritten: the same `itemChange` limit applies to the text and box items open removes before a refused header, which in the running program set Dirty before the exception escapes.
- File handles, error strings and the warning box itself: a file that cannot be opened is a `None` passed in (`CannotOpen`), one that cannot be written a `canWrite` of false. What follows an exception that escapes a slot (PyQt5 aborts the application by default) is not modelled; `escaped` only records that it happens.
- Dialogs are replaced by their answers, passed in as parameters:
  - the chosen file name, with "" for cancel;
  - the delete confirmation.
- `offerSave`, which open and close call first, is not modelled. It asks a question and may call save.
- `addText`, `addBox` and `addPixmap` are not modelled. addBox is `Position` followed by `CreateBoxItem`. addText opens the text dialog at `Position`, and addPixmap loads a chosen image file, before they call the create methods, which are modelled.
- `TextItemDlg`, double-click editing and the box context menu are GUI plumbing. Their effect on a box's style is `SetBoxStyle`.
- Printing (`print_`), painting, `boundingRect`, `removeBorders` and the zoom of `GraphicsView.wheelEvent` (floating-point powers) are not modelled.
- PageDesigner.MainForm.CreateTextItem: keeps the text exactly as given. The program writes a text item's `toPlainText()`, not the string it was built from. Qt's plain-text conversion turns U+00A0 (no-break space) into a space and U+2028 and U+2029 (line and paragraph separators) into a newline. So a text holding those characters is written back changed on the next save or copy. The model's `Encode` writes the text unchanged.
- Coordinates are reals. IEEE double rounding is not modelled.
- `str.lower()` is modelled on ASCII letters only. That is enough to decide whether a name ends with `.pgd`.
- Selection is a flag per item that only the form's own operations change. Clicking items is not modelled.

## Findings

| source | as written | input that shows it | evidently intended | confidence | as-written member | corrected member |
|---|---|---|---|---|---|---|
| Chapter12/pagedesignerPyside.py:335-342 | the IOError handler calls `QtGui.QMessageBox.warning`, which PyQt5 does not have, so an exception leaves save before `Dirty = False` | a dirty document with a file name whose file cannot be opened for writing | the warning is shown (`QtWidgets.QMessageBox.warning`, as at line 143) and Dirty is cleared | high, not executed | `PageDesigner.MainForm.SaveAsWritten`, shown by `Scenarios.FailedSaveOfDirtyDocument` | `PageDesigner.MainForm.Save` |
| Chapter12/pagedesignerPyside.py:300-307 | the IOError handler calls `QtGui.QMessageBox.warning`, so an exception leaves open before `Dirty = False`, after the scene was emptied | a dirty document, then an empty file chosen in open (no magic number) | the warning is shown and Dirty is cleared | high, not executed | `PageDesigner.MainForm.OpenAsWritten`, shown by `Scenarios.RefusedOpenOfDirtyDocument` | `PageDesigner.MainForm.Open` |
