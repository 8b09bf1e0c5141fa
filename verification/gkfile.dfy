/** A file or directory entry on the card (GateKeeperSDK/GKFile.cs): its name, its
    type, its absolute card path once assigned, and its size as the card reported it.
    A card path not yet assigned (null in the source) is None here. The name is a
    string and never null: Extension and FilenameBase would throw on a null name,
    which is not modelled. */
module Files {
  import opened Results
  import opened StringUtils
  import opened FileUtils

  /** GKFile.GKType. */
  datatype GKType = FileEntry | DirectoryEntry

  datatype GKFile = GKFile(name: string, kind: GKType, cardPath: Option<string>, fileSize: int)

  /** The characters the extension is split off at: backslash and dot. */
  const ExtensionSeparators: set<char> := {'\\', '.'}

  /** GKFile(name, type): no card path yet, and the size field keeps its default 0. */
  function NewFile(name: string, kind: GKType): (f: GKFile)
    ensures f.name == name && f.kind == kind && f.cardPath.None?
    ensures FileSize(f) == 0
  {
    GKFile(name, kind, None, 0)
  }

  /** GKFile(name, type, fileSize). */
  function NewSizedFile(name: string, kind: GKType, size: int): (f: GKFile)
    ensures f.name == name && f.kind == kind && f.cardPath.None?
    ensures FileSize(f) == size
  {
    GKFile(name, kind, None, size)
  }

  /** The Directory property. */
  function IsDirectory(f: GKFile): (b: bool)
    ensures b <==> f.kind == DirectoryEntry
    ensures !b <==> f.kind == FileEntry
  {
    f.kind == DirectoryEntry
  }

  /** The FileSize property. */
  function FileSize(f: GKFile): int
  {
    f.fileSize
  }

  /** The Extension property: none for a directory; for a file the last piece of the
      name split at every backslash and dot, none when the name has neither. */
  function Extension(f: GKFile): (e: Option<string>)
    ensures IsDirectory(f) ==> e.None?
    ensures !IsDirectory(f) ==> (e.Some? <==> !NoneOf(f.name, ExtensionSeparators))
    ensures e.Some? ==> e.value == f.name[LastIndexOfAny(f.name, ExtensionSeparators) + 1..]
    ensures e.Some? ==> NoneOf(e.value, ExtensionSeparators)
  {
    if f.kind == DirectoryEntry then None
    else
      var parts := Split(f.name, ExtensionSeparators);
      SplitSeveral(f.name, ExtensionSeparators);
      SplitLast(f.name, ExtensionSeparators);
      SplitPiecesClean(f.name, ExtensionSeparators);
      if |parts| > 1 then Some(parts[|parts| - 1]) else None
  }

  /** The FilenameBase property: none for a directory; for a file the name up to its
      last dot, or the whole name when it has no dot. */
  function FilenameBase(f: GKFile): (b: Option<string>)
    ensures IsDirectory(f) <==> b.None?
    ensures b.Some? ==> |b.value| <= |f.name| && f.name[..|b.value|] == b.value
    ensures b.Some? && NoneOf(f.name, {'.'}) ==> b.value == f.name
    ensures b.Some? && !NoneOf(f.name, {'.'}) ==>
              |b.value| < |f.name| && f.name[|b.value|] == '.' && NoneOf(f.name[|b.value| + 1..], {'.'})
  {
    if f.kind == DirectoryEntry then None
    else
      var k := LastIndexOfAny(f.name, {'.'});
      LastIndexOfAnyAfter(f.name, {'.'});
      if k == -1 then
        assert f.name[k + 1..] == f.name;
        Some(f.name)
      else
        Some(f.name[..k])
  }

  /** A file name with a dot and no backslash is its base, a dot and its extension. */
  lemma NameSplitsAtLastDot(f: GKFile)
    requires !IsDirectory(f) && NoneOf(f.name, {'\\'}) && !NoneOf(f.name, {'.'})
    ensures Extension(f).Some? && FilenameBase(f).Some?
    ensures FilenameBase(f).value + "." + Extension(f).value == f.name
  {
    var k := LastIndexOfAny(f.name, {'.'});
    LastIndexOfAnyAfter(f.name, {'.'});
    forall j | k < j < |f.name| ensures f.name[j] !in ExtensionSeparators {
      assert f.name[j] == f.name[k + 1..][j - k - 1];
    }
    LastIndexUnique(f.name, ExtensionSeparators, k);
    SplitAround(f.name, k);
  }

  /** Adding an extension without dots or backslashes to a non-empty base names a
      file whose base and extension are those two again. */
  lemma AddExtensionSplitsBack(base: string, extension: string)
    requires base != "" && extension != "" && NoneOf(extension, ExtensionSeparators)
    ensures var f := NewFile(AddExtension(base, extension), FileEntry);
            Extension(f) == Some(extension) && FilenameBase(f) == Some(base)
  {
    var name := AddExtension(base, extension);
    var k := |base|;
    assert forall j :: k < j < |name| ==> name[j] == extension[j - k - 1];
    LastIndexUnique(name, ExtensionSeparators, k);
    LastIndexUnique(name, {'.'}, k);
  }

  /** setCardPath: the card path becomes joinPath(parentPath, fileName), with the
      literal replacement of FileUtils.JoinPathAsWritten; nothing else changes.
      Without a backslash in either argument the segments of the new path are those
      of the parent path, then those of the name. */
  function SetCardPath(f: GKFile, parentPath: string, fileName: string): (g: GKFile)
    ensures g.name == f.name && g.kind == f.kind && g.fileSize == f.fileSize
    ensures g.cardPath.Some?
    ensures NoneOf(parentPath, {'\\'}) && NoneOf(fileName, {'\\'}) ==>
              && NoneOf(g.cardPath.value, {'\\'})
              && ParsePath(g.cardPath.value) == ParsePath(parentPath) + ParsePath(fileName)
  {
    var path := JoinPathAsWritten([parentPath, fileName]);
    assert NoneOf(parentPath, {'\\'}) && NoneOf(fileName, {'\\'}) ==>
             NoneOf(path, {'\\'}) && ParsePath(path) == ParsePath(parentPath) + ParsePath(fileName) by {
      if NoneOf(parentPath, {'\\'}) && NoneOf(fileName, {'\\'}) {
        JoinPathAsWrittenParse([parentPath, fileName]);
        ParseAllPair(parentPath, fileName);
      }
    }
    f.(cardPath := Some(path))
  }

  /** The ParentCardPath property: none without a card path or with at most one
      segment; otherwise a slash and all segments but the last, joined by joinPath as
      written. Without a backslash in the card path, its segments are all but the last. */
  function ParentCardPath(f: GKFile): (p: Option<string>)
    ensures p.Some? <==> f.cardPath.Some? && |ParsePath(f.cardPath.value)| > 1
    ensures p.Some? ==> |p.value| > 0 && p.value[0] == Slash
    ensures p.Some? && NoneOf(f.cardPath.value, {'\\'}) ==>
              var parts := ParsePath(f.cardPath.value);
              ParsePath(p.value) == parts[..|parts| - 1]
  {
    if f.cardPath.None? then None
    else
      var parts := ParsePath(f.cardPath.value);
      if |parts| <= 1 then None
      else
        var parent := parts[..|parts| - 1];
        var joined := JoinPathAsWritten(parent);
        assert NoneOf(f.cardPath.value, {'\\'}) ==> ParsePath([Slash] + joined) == parent by {
          if NoneOf(f.cardPath.value, {'\\'}) {
            ParsePathNoneOf(f.cardPath.value, '\\');
            JoinPathAsWrittenRoundTrip(parent);
            ParseLeadingSlash(joined);
          }
        }
        Some([Slash] + joined)
  }

  /** The parent of a path assigned from a backslash-free parent path and file name
      has the segments of that parent path. */
  lemma ParentOfSetCardPath(f: GKFile, parentPath: string, fileName: string)
    requires fileName != "" && NoneOf(fileName, {Slash}) && |ParsePath(parentPath)| > 0
    requires NoneOf(parentPath, {'\\'}) && NoneOf(fileName, {'\\'})
    ensures ParentCardPath(SetCardPath(f, parentPath, fileName)).Some?
    ensures ParsePath(ParentCardPath(SetCardPath(f, parentPath, fileName)).value) == ParsePath(parentPath)
  {
    ParseSegment(fileName);
    var parts := ParsePath(parentPath) + [fileName];
    assert parts[..|parts| - 1] == ParsePath(parentPath);
  }
}
