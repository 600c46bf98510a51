/**
 * The graphics scene: the items on the page in stacking order (the first
 * added at the bottom), each with the two properties the record format does
 * not carry: its rotation and whether it is selected. Border rectangles are
 * not selectable.
 */
module GraphicsScene {
  import opened Wrappers
  import opened Geometry
  import opened Items

  datatype Node = Node(item: SceneItem, rotation: real, selected: bool)

  /// The two page-border rectangles: the page edge, and the edge inset by a
  /// margin of 5.25 point sizes.
  function BorderNodes(): (r: seq<Node>)
    ensures |r| == 2 && forall k :: 0 <= k < |r| ==> r[k].item.Border? && !r[k].selected
  {
    var page := Rect(0.0, 0.0, PageWidth as real, PageHeight as real);
    var margin := 5.25 * (PointSize as real);
    [Node(Border(page), 0.0, false),
     Node(Border(Adjusted(page, margin, margin, -margin, -margin)), 0.0, false)]
  }

  ghost predicate BordersUnselected(nodes: seq<Node>)
  {
    forall k :: 0 <= k < |nodes| && nodes[k].item.Border? ==> !nodes[k].selected
  }

  /// scene.items(): every item, topmost first (the reverse of the order they
  /// were added in).
  function TopmostFirst(nodes: seq<Node>): (r: seq<SceneItem>)
    ensures |r| == |nodes|
    ensures forall k :: 0 <= k < |nodes| ==> r[k] == nodes[|nodes| - 1 - k].item
  {
    if nodes == [] then [] else [nodes[|nodes| - 1].item] + TopmostFirst(nodes[..|nodes| - 1])
  }

  /// scene.selectedItems(), as the indices of the selected items. Qt
  /// promises no order; the model lists them in ascending order.
  function SelectedIndices(nodes: seq<Node>): seq<nat>
  {
    if nodes == [] then []
    else
      var front := SelectedIndices(nodes[..|nodes| - 1]);
      if nodes[|nodes| - 1].selected then front + [|nodes| - 1] else front
  }

  /// selectedItems() lists only selected items, each once, bottom to top.
  lemma {:induction false} SelectedIndicesSorted(nodes: seq<Node>)
    ensures forall k :: 0 <= k < |SelectedIndices(nodes)| ==>
              SelectedIndices(nodes)[k] < |nodes| && nodes[SelectedIndices(nodes)[k]].selected
    ensures forall a, b :: 0 <= a < b < |SelectedIndices(nodes)| ==> SelectedIndices(nodes)[a] < SelectedIndices(nodes)[b]
  {
    if nodes != [] {
      var front := nodes[..|nodes| - 1];
      SelectedIndicesSorted(front);
      assert forall k :: 0 <= k < |front| ==> nodes[k] == front[k];
    }
  }

  /// `r` lists the indices of exactly the selected nodes, in ascending order.
  ghost predicate ListsSelection(nodes: seq<Node>, r: seq<nat>)
  {
    && (forall k :: 0 <= k < |r| ==> r[k] < |nodes| && nodes[r[k]].selected)
    && (forall a, b :: 0 <= a < b < |r| ==> r[a] < r[b])
    && (forall i :: 0 <= i < |nodes| && nodes[i].selected ==> i in r)
  }

  lemma SelectedIndicesListsSelection(nodes: seq<Node>)
    ensures ListsSelection(nodes, SelectedIndices(nodes))
  {
    SelectedIndicesSorted(nodes);
    forall i | 0 <= i < |nodes| && nodes[i].selected ensures i in SelectedIndices(nodes) {
      SelectedIndexListed(nodes, i);
    }
  }

  /// No selected item is missing from selectedItems().
  lemma {:induction false} SelectedIndexListed(nodes: seq<Node>, i: nat)
    requires i < |nodes| && nodes[i].selected
    ensures i in SelectedIndices(nodes)
  {
    if i < |nodes| - 1 {
      SelectedIndexListed(nodes[..|nodes| - 1], i);
      SelectedIndicesSorted(nodes[..|nodes| - 1]);
    }
  }

  /// Nothing above the last index selectedItems() lists is selected.
  lemma {:induction false} NoneSelectedAboveLast(nodes: seq<Node>)
    requires SelectedIndices(nodes) != []
    ensures SelectedIndices(nodes)[|SelectedIndices(nodes)| - 1] < |nodes|
    ensures forall t :: SelectedIndices(nodes)[|SelectedIndices(nodes)| - 1] < t < |nodes| ==> !nodes[t].selected
  {
    var front := nodes[..|nodes| - 1];
    if !nodes[|nodes| - 1].selected {
      NoneSelectedAboveLast(front);
      assert forall k :: 0 <= k < |front| ==> nodes[k] == front[k];
    }
  }

  ghost predicate OnlySelected(nodes: seq<Node>, i: nat)
  {
    i < |nodes| && nodes[i].selected && forall j :: 0 <= j < |nodes| && nodes[j].selected ==> j == i
  }

  /// When item i is the only one selected, selectedItems() is just [i].
  lemma SingleSelection(nodes: seq<Node>, i: nat)
    requires OnlySelected(nodes, i)
    ensures SelectedIndices(nodes) == [i]
  {
    var selected := SelectedIndices(nodes);
    SelectedIndicesSorted(nodes);
    assert forall k :: 0 <= k < |selected| ==> selected[k] == i;
    SelectedIndexListed(nodes, i);
    Spread(selected);
  }

  /// The last of a strictly increasing sequence of naturals is at least its
  /// length minus one above the first.
  lemma {:induction false} Spread(s: seq<nat>)
    requires |s| > 0 && forall a, b :: 0 <= a < b < |s| ==> s[a] < s[b]
    ensures s[|s| - 1] - s[0] >= |s| - 1
  {
    if |s| > 1 {
      Spread(s[..|s| - 1]);
      assert s[|s| - 2] < s[|s| - 1];
    }
  }

  /// selectedItem: the selected item when exactly one item is selected, and
  /// nothing when none or several are.
  function SelectedItem(nodes: seq<Node>): (r: Option<nat>)
    ensures r.Some? ==> OnlySelected(nodes, r.value)
    ensures r.None? ==> forall i: nat :: !OnlySelected(nodes, i)
  {
    var selected := SelectedIndices(nodes);
    SelectedIndicesSorted(nodes);
    assert forall i: nat :: OnlySelected(nodes, i) ==> selected == [i] by {
      forall i: nat | OnlySelected(nodes, i) ensures selected == [i] {
        SingleSelection(nodes, i);
      }
    }
    if |selected| == 1 then
      assert forall j :: 0 <= j < |nodes| && nodes[j].selected ==> j == selected[0] by {
        forall j | 0 <= j < |nodes| && nodes[j].selected ensures j == selected[0] {
          SelectedIndexListed(nodes, j);
        }
      }
      Some(selected[0])
    else None
  }

  /// scene.clearSelection()
  function Deselected(nodes: seq<Node>): (r: seq<Node>)
    ensures |r| == |nodes|
    ensures forall k :: 0 <= k < |nodes| ==> r[k] == nodes[k].(selected := false)
  {
    seq(|nodes|, k requires 0 <= k < |nodes| => nodes[k].(selected := false))
  }

  /// What creating a page item does to the scene: the selection is cleared,
  /// the item is added on top, unrotated, and selected.
  function Added(nodes: seq<Node>, item: PageItem): (r: seq<Node>)
    ensures |r| == |nodes| + 1 && r[..|nodes|] == Deselected(nodes)
    ensures r[|nodes|] == Node(Page(item), 0.0, true)
  {
    Deselected(nodes) + [Node(Page(item), 0.0, true)]
  }

  /// After an item is created it is the one selected item.
  lemma AddedIsSelectedItem(nodes: seq<Node>, item: PageItem)
    ensures SelectedItem(Added(nodes, item)) == Some(|nodes|)
  {
    var after := Added(nodes, item);
    assert forall j :: 0 <= j < |nodes| ==> after[j] == Deselected(nodes)[j];
    assert OnlySelected(after, |nodes|);
  }

  function AddedOpt(nodes: seq<Node>, item: Option<PageItem>): seq<Node>
  {
    if item.Some? then Added(nodes, item.value) else nodes
  }

  /// The scene after creating the items one after the other.
  function AddedAll(nodes: seq<Node>, items: seq<PageItem>): (r: seq<Node>)
    ensures |r| == |nodes| + |items|
    ensures forall k :: 0 <= k < |nodes| ==> r[k].item == nodes[k].item
    ensures forall k :: 0 <= k < |items| ==> r[|nodes| + k].item == Page(items[k])
  {
    if items == [] then nodes
    else Added(AddedAll(nodes, items[..|items| - 1]), items[|items| - 1])
  }

  /// After creating one or more items, the last one created is the one
  /// selected item.
  lemma AddedAllSelectsLast(nodes: seq<Node>, items: seq<PageItem>)
    requires items != []
    ensures SelectedItem(AddedAll(nodes, items)) == Some(|nodes| + |items| - 1)
  {
    AddedIsSelectedItem(AddedAll(nodes, items[..|items| - 1]), items[|items| - 1]);
  }

  /// What delete leaves: the unselected items, in order.
  function Kept(nodes: seq<Node>): (r: seq<Node>)
    ensures |r| <= |nodes| && forall k :: 0 <= k < |r| ==> !r[k].selected
  {
    if nodes == [] then []
    else (if nodes[0].selected then [] else [nodes[0]]) + Kept(nodes[1..])
  }

  /// Delete keeps exactly the unselected items.
  lemma {:induction false} KeptMembers(nodes: seq<Node>, n: Node)
    ensures n in Kept(nodes) <==> n in nodes && !n.selected
  {
    if nodes != [] {
      KeptMembers(nodes[1..], n);
      assert nodes == [nodes[0]] + nodes[1..];
    }
  }

  lemma {:induction false} KeptAppend(a: seq<Node>, b: seq<Node>)
    ensures Kept(a + b) == Kept(a) + Kept(b)
  {
    if a == [] {
      assert a + b == b;
    } else {
      assert (a + b)[1..] == a[1..] + b;
      KeptAppend(a[1..], b);
    }
  }

  lemma {:induction false} KeptUnselected(a: seq<Node>)
    requires forall k :: 0 <= k < |a| ==> !a[k].selected
    ensures Kept(a) == a
  {
    if a != [] {
      KeptUnselected(a[1..]);
    }
  }

  /// rotate: every selected item turned 30 degrees further.
  function RotateSelected(nodes: seq<Node>): (r: seq<Node>)
    ensures |r| == |nodes|
    ensures forall k :: 0 <= k < |nodes| ==>
              r[k].item == nodes[k].item && r[k].selected == nodes[k].selected &&
              r[k].rotation == nodes[k].rotation + (if nodes[k].selected then 30.0 else 0.0)
  {
    seq(|nodes|, k requires 0 <= k < |nodes| =>
      if nodes[k].selected then nodes[k].(rotation := nodes[k].rotation + 30.0) else nodes[k])
  }

  /// Saving writes the same records whatever is selected and however the
  /// items are rotated: rotation is an item property that the record format
  /// does not carry, so a rotation is lost on save and on copy.
  lemma SavedItemsIgnoreRotationAndSelection(nodes: seq<Node>)
    ensures TopmostFirst(RotateSelected(nodes)) == TopmostFirst(nodes)
    ensures TopmostFirst(Deselected(nodes)) == TopmostFirst(nodes)
  {
    var a, b, c := TopmostFirst(RotateSelected(nodes)), TopmostFirst(nodes), TopmostFirst(Deselected(nodes));
    assert forall k :: 0 <= k < |b| ==> a[k] == b[k];
    assert forall k :: 0 <= k < |b| ==> c[k] == b[k];
  }

  /// The QGraphicsScene itself.
  class Scene {
    var nodes: seq<Node>

    ghost predicate Valid()
      reads this
    {
      BordersUnselected(nodes)
    }

    constructor ()
      ensures Valid() && nodes == []
    {
      nodes := [];
    }

    method ClearSelection()
      requires Valid()
      modifies this
      ensures Valid() && nodes == Deselected(old(nodes))
    {
      nodes := Deselected(nodes);
    }

    /// addItem: the item goes on top, unselected and unrotated.
    method AddItem(item: SceneItem)
      requires Valid()
      modifies this
      ensures Valid() && nodes == old(nodes) + [Node(item, 0.0, false)]
    {
      nodes := nodes + [Node(item, 0.0, false)];
    }

    /// setSelected: only page items are selectable.
    method SetSelected(i: nat, selected: bool)
      requires Valid() && i < |nodes|
      modifies this
      ensures Valid()
      ensures nodes == if old(nodes[i].item.Page?) then old(nodes[i := nodes[i].(selected := selected)]) else old(nodes)
    {
      if nodes[i].item.Page? {
        nodes := nodes[i := nodes[i].(selected := selected)];
      }
    }

    /// setRotation
    method SetRotation(i: nat, angle: real)
      requires Valid() && i < |nodes|
      modifies this
      ensures Valid() && nodes == old(nodes[i := nodes[i].(rotation := angle)])
    {
      nodes := nodes[i := nodes[i].(rotation := angle)];
    }

    /// A page item changed in place (its style or its rectangle).
    method SetPageItem(i: nat, item: PageItem)
      requires Valid() && i < |nodes| && nodes[i].item.Page?
      modifies this
      ensures Valid() && nodes == old(nodes[i := nodes[i].(item := Page(item))])
    {
      nodes := nodes[i := nodes[i].(item := Page(item))];
    }

    /// removeItem
    method RemoveAt(i: nat)
      requires Valid() && i < |nodes|
      modifies this
      ensures Valid() && nodes == old(nodes[..i] + nodes[i + 1..])
    {
      nodes := nodes[..i] + nodes[i + 1..];
      assert forall k :: 0 <= k < |nodes| ==> nodes[k] == old(nodes[if k < i then k else k + 1]);
    }

    /// addBorders
    method AddBorders()
      requires Valid()
      modifies this
      ensures Valid() && nodes == old(nodes) + BorderNodes()
    {
      AddItem(BorderNodes()[0].item);
      AddItem(BorderNodes()[1].item);
    }
  }
}
