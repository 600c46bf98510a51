/**
 * The .pgd document file: an int32 magic number, an int16 format version,
 * then the records of the scene's items back to back until the end of the
 * stream. Also the rule that gives a saved file its extension.
 */
module DocumentFile {
  import opened Items
  import opened Codec

  /// "page" in ASCII.
  const MagicNumber: int32 := 0x70616765
  const FileVersion: int16 := 1

  function Header(): seq<Token>
  {
    [Int32Tok(MagicNumber), Int16Tok(FileVersion)]
  }

  /// Everything save writes: the header, then one record per scene item.
  function SaveStream(items: seq<SceneItem>): seq<Token>
  {
    Header() + EncodeAll(items)
  }

  /// The header check of open: a wrong magic number is refused first, then a
  /// version other than FileVersion; otherwise the records follow.
  datatype HeaderCheck = BadMagic | BadVersion | Body(rest: seq<Token>)

  function ReadHeader(s: seq<Token>): (h: HeaderCheck)
    ensures h.Body? <==> |s| >= 2 && s[..2] == Header()
    ensures h.Body? ==> s == Header() + h.rest
    ensures h.BadMagic? <==> |s| == 0 || s[0] != Int32Tok(MagicNumber)
  {
    if |s| == 0 || s[0] != Int32Tok(MagicNumber) then BadMagic
    else if |s| == 1 || s[1] != Int16Tok(FileVersion) then BadVersion
    else Body(s[2..])
  }

  /// What opening a stream yields: a refusal at the header, or the records read.
  datatype FileLoad = NotPageFile | UnsupportedVersion | Records(load: Load)

  function LoadFile(s: seq<Token>): FileLoad
  {
    match ReadHeader(s)
    case BadMagic => NotPageFile
    case BadVersion => UnsupportedVersion
    case Body(rest) => Records(DecodeAll(rest))
  }

  /// Saving then opening gives back the page items in the order they were
  /// written, and reading ends exactly at the end of the file.
  lemma SaveThenLoad(items: seq<SceneItem>)
    ensures LoadFile(SaveStream(items)) == Records(Load(PageItems(items), true))
  {
    assert SaveStream(items)[..2] == Header();
    DecodeAllEncodeAll(items);
  }

  /// save's writing: the header, then each scene item's record in turn. The
  /// stream written is the one that loads back as the page items in order.
  method WriteStream(items: seq<SceneItem>) returns (stream: seq<Token>)
    ensures stream == SaveStream(items)
    ensures LoadFile(stream) == Records(Load(PageItems(items), true))
  {
    stream := Header();
    var i := 0;
    while i < |items|
      invariant 0 <= i <= |items|
      invariant stream == Header() + EncodeAll(items[..i])
    {
      EncodeAllPrefix(items, i);
      stream := stream + EncodeSceneItem(items[i]);
      i := i + 1;
    }
    assert items[..i] == items;
    SaveThenLoad(items);
  }

  /// A stream whose magic number or version is wrong is refused before any
  /// record is read, however well-formed the records after the header are.
  lemma HeaderGate(first: Token, second: Token, items: seq<SceneItem>)
    ensures first != Int32Tok(MagicNumber) ==> LoadFile([first, second] + EncodeAll(items)) == NotPageFile
    ensures first == Int32Tok(MagicNumber) && second != Int16Tok(FileVersion) ==>
              LoadFile([first, second] + EncodeAll(items)) == UnsupportedVersion
  {
  }

  /// The extension save gives a file name that lacks it.
  const Extension: string := ".pgd"

  /// str.lower() on the characters that can lower to '.', 'p', 'g' or 'd'.
  function LowerChar(c: char): char
  {
    if 'A' <= c <= 'Z' then (c as int + 32) as char else c
  }

  function Lower(s: string): (r: string)
    ensures |r| == |s| && forall i :: 0 <= i < |s| ==> r[i] == LowerChar(s[i])
  {
    seq(|s|, i requires 0 <= i < |s| => LowerChar(s[i]))
  }

  predicate EndsWith(s: string, suffix: string)
  {
    |suffix| <= |s| && s[|s| - |suffix|..] == suffix
  }

  /// `name.lower().endswith(".pgd")`
  predicate HasExtension(name: string)
  {
    EndsWith(Lower(name), Extension)
  }

  /// The name save uses: `.pgd` appended unless the name already ends with
  /// it in any mix of cases.
  function PgdFileName(name: string): (r: string)
    ensures HasExtension(r)
    ensures |name| <= |r| && r[..|name|] == name
    ensures HasExtension(name) <==> r == name
    ensures !HasExtension(name) ==> r == name + Extension
  {
    if HasExtension(name) then name
    else
      var r := name + Extension;
      assert Lower(r)[|r| - 4..] == Extension;
      r
  }

  /// Fixing a name twice is fixing it once.
  lemma PgdFileNameIdempotent(name: string)
    ensures PgdFileName(PgdFileName(name)) == PgdFileName(name)
  {
  }
}
