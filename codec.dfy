/**
 * The item record: how one scene item is written to a data stream and read
 * back. The stream is a sequence of field tokens, one per value the record
 * writes; the byte layout of each field is Qt's own serialization and is not
 * modelled, only which field comes where.
 *
 * A record is the type tag ("Text", "Box" or "Pixmap"), the position, the
 * transform, then the payload of that kind. Records carry no length and no
 * separator: the tag decides how many fields follow.
 */
module Codec {
  import opened Wrappers
  import opened Geometry
  import opened Items

  type int32 = x: int | -0x8000_0000 <= x < 0x8000_0000

  /// One field of a data stream.
  datatype Token =
    | StrTok(str: string)
    | PointTok(point: Point)
    | TransformTok(matrix: Transform)
    | FontTok(font: Font)
    | RectTok(rect: Rect)
    | Int16Tok(i16: int16)
    | Int32Tok(i32: int32)
    | PixmapTok(pixmap: Pixmap)

  const TextTag: string := "Text"
  const BoxTag: string := "Box"
  const PixmapTag: string := "Pixmap"

  function Tag(item: PageItem): string
  {
    match item
    case TextItem(_, _, _, _) => TextTag
    case BoxItem(_, _, _, _) => BoxTag
    case PixmapItem(_, _, _) => PixmapTag
  }

  /// The record of one page item.
  function Encode(item: PageItem): (s: seq<Token>)
    ensures 4 <= |s| <= 5
    ensures s[0] == StrTok(Tag(item)) && s[1] == PointTok(item.pos) && s[2] == TransformTok(item.transform)
  {
    var head := [StrTok(Tag(item)), PointTok(item.pos), TransformTok(item.transform)];
    match item
    case TextItem(_, _, text, font) => head + [StrTok(text), FontTok(font)]
    case BoxItem(_, _, rect, style) => head + [RectTok(rect), Int16Tok(style)]
    case PixmapItem(_, _, pixmap) => head + [PixmapTok(pixmap)]
  }

  /// writeItemToStream: a page item writes its record; anything else in the
  /// scene (the border rectangles) writes nothing at all.
  function EncodeSceneItem(item: SceneItem): (s: seq<Token>)
    ensures s == [] <==> item.Border?
    ensures item.Page? ==> s == Encode(item.item)
  {
    match item
    case Page(p) => Encode(p)
    case Border(_) => []
  }

  /// The outcome of reading one record: the item it creates (none for an
  /// unknown tag) and the stream after the record, or a field that is
  /// missing or of the wrong kind.
  datatype Decoded = Record(item: Option<PageItem>, rest: seq<Token>) | Malformed

  /// readItemFromStream: reads the tag, the position and the transform,
  /// shifts the position by a non-zero offset, then reads the payload the tag
  /// calls for. An unknown tag consumes those three fields and creates nothing.
  function Decode(s: seq<Token>, offset: int): (d: Decoded)
    ensures d.Record? ==> 3 <= |s| && |d.rest| <= |s| - 3 && d.rest == s[|s| - |d.rest|..]
    ensures d.Record? && d.item.Some? ==> |d.rest| <= |s| - 4
  {
    if |s| < 3 || !s[0].StrTok? || !s[1].PointTok? || !s[2].TransformTok? then Malformed
    else
      var tag, transform := s[0].str, s[2].matrix;
      var pos := if offset != 0 then Shifted(s[1].point, offset) else s[1].point;
      if tag == TextTag then
        if |s| < 5 || !s[3].StrTok? || !s[4].FontTok? then Malformed
        else Record(Some(TextItem(pos, transform, s[3].str, s[4].font)), s[5..])
      else if tag == BoxTag then
        if |s| < 5 || !s[3].RectTok? || !s[4].Int16Tok? then Malformed
        else Record(Some(BoxItem(pos, transform, s[3].rect, s[4].i16)), s[5..])
      else if tag == PixmapTag then
        if |s| < 4 || !s[3].PixmapTok? then Malformed
        else Record(Some(PixmapItem(pos, transform, s[3].pixmap)), s[4..])
      else
        Record(None, s[3..])
  }

  /// The item a record creates, if any.
  function DecodedItem(s: seq<Token>, offset: int): Option<PageItem>
  {
    match Decode(s, offset)
    case Record(item, _) => item
    case Malformed => None
  }

  /// Reading a written record gives back the same item, moved by the offset,
  /// and stops exactly where the record ends, whatever follows it.
  lemma DecodeEncode(item: PageItem, offset: int, rest: seq<Token>)
    ensures Decode(Encode(item) + rest, offset) == Record(Some(Moved(item, offset)), rest)
  {
    var s := Encode(item) + rest;
    match item
    case TextItem(_, _, _, _) =>
      assert s[5..] == rest;
    case BoxItem(_, _, _, _) =>
      assert s[5..] == rest;
    case PixmapItem(_, _, _) =>
      assert s[4..] == rest;
  }

  /// With offset 0 the round trip is exact: same kind, position, transform
  /// and payload.
  lemma DecodeEncodeExact(item: PageItem)
    ensures Decode(Encode(item), 0) == Record(Some(item), [])
  {
    DecodeEncode(item, 0, []);
    assert Encode(item) + [] == Encode(item);
  }

  /// A record with a tag of none of the three kinds consumes the tag, the
  /// position and the transform, and creates no item.
  lemma DecodeUnknownTag(tag: string, p: Point, t: Transform, offset: int, rest: seq<Token>)
    requires tag != TextTag && tag != BoxTag && tag != PixmapTag
    ensures Decode([StrTok(tag), PointTok(p), TransformTok(t)] + rest, offset) == Record(None, rest)
  {
    var s := [StrTok(tag), PointTok(p), TransformTok(t)] + rest;
    assert s[3..] == rest;
  }

  /// The records of a sequence of scene items, back to back.
  function EncodeAll(items: seq<SceneItem>): seq<Token>
  {
    if items == [] then [] else EncodeSceneItem(items[0]) + EncodeAll(items[1..])
  }

  lemma {:induction false} EncodeAllAppend(a: seq<SceneItem>, b: seq<SceneItem>)
    ensures EncodeAll(a + b) == EncodeAll(a) + EncodeAll(b)
  {
    if a != [] {
      assert (a + b)[1..] == a[1..] + b;
      EncodeAllAppend(a[1..], b);
    } else {
      assert a + b == b;
    }
  }

  /// Writing one more record extends what was written before.
  lemma EncodeAllPrefix(items: seq<SceneItem>, i: nat)
    requires i < |items|
    ensures EncodeAll(items[..i + 1]) == EncodeAll(items[..i]) + EncodeSceneItem(items[i])
  {
    assert items[..i + 1] == items[..i] + [items[i]];
    EncodeAllAppend(items[..i], [items[i]]);
  }

  /// The page items among the scene items, in order.
  function PageItems(items: seq<SceneItem>): (r: seq<PageItem>)
    ensures |r| <= |items|
  {
    if items == [] then []
    else (if items[0].Page? then [items[0].item] else []) + PageItems(items[1..])
  }

  /// What reading records until the end of the stream produces: the items
  /// created, and whether the stream ended on a record boundary (false when a
  /// record is malformed; reading stops there).
  datatype Load = Load(items: seq<PageItem>, complete: bool)

  function DecodeAll(s: seq<Token>): (l: Load)
    ensures 4 * |l.items| <= |s|
    decreases |s|
  {
    if s == [] then Load([], true)
    else match Decode(s, 0)
      case Malformed => Load([], false)
      case Record(item, rest) =>
        var tail := DecodeAll(rest);
        Load((if item.Some? then [item.value] else []) + tail.items, tail.complete)
  }

  /// Reading the first record of a non-empty stream, after items `done`
  /// were read from what came before it.
  lemma DecodeAllFirst(s: seq<Token>, done: seq<PageItem>)
    requires s != []
    ensures Decode(s, 0).Malformed? ==> done + DecodeAll(s).items == done && !DecodeAll(s).complete
    ensures Decode(s, 0).Record? ==>
              var d := Decode(s, 0);
              var created := if d.item.Some? then [d.item.value] else [];
              && done + DecodeAll(s).items == (done + created) + DecodeAll(d.rest).items
              && DecodeAll(s).complete == DecodeAll(d.rest).complete
  {
    if Decode(s, 0).Malformed? {
      assert done + [] == done;
    }
  }

  /// Records are self-delimiting: reading back the records of a sequence of
  /// scene items, one record at a time until the stream is exhausted, yields
  /// its page items in the same order and ends exactly at the end.
  lemma {:induction false} DecodeAllEncodeAll(items: seq<SceneItem>)
    ensures DecodeAll(EncodeAll(items)) == Load(PageItems(items), true)
  {
    if items != [] {
      DecodeAllEncodeAll(items[1..]);
      match items[0]
      case Border(_) =>
        assert EncodeAll(items) == EncodeAll(items[1..]);
      case Page(item) =>
        DecodeEncode(item, 0, EncodeAll(items[1..]));
    }
  }
}
