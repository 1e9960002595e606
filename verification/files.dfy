/**
  The pure part of the server's file area: confining client paths to the shared root,
  hiding AppleDouble sidecar files from listings, and the metadata a listing entry or a
  file-info reply is built from. The filesystem itself, the file-type sniffing library
  and the MacRoman encoder are parameters.
*/
module Files {
  import opened Wrappers
  import opened Wire
  import opened Paths
  import Requests

  datatype IoError = InvalidInput | InvalidData

  /** `validate_path`: any `..` component is rejected; otherwise the path is returned as is. */
  function ValidatePath(p: Path): (r: Result<Path, IoError>)
    ensures r.Err? <==> exists i :: 0 <= i < |p| && p[i] == ParentDir
    ensures r.Err? ==> r.error == InvalidInput
    ensures r.Ok? ==> r.value == p
  {
    if exists i :: 0 <= i < |p| && p[i] == ParentDir then Err(InvalidInput) else Ok(p)
  }

  /** `subpath` as written: the root's components followed by the client path's, collected. */
  function SubpathAsWritten(root: Path, p: Path): (r: Result<Path, IoError>)
    ensures r.Err? <==> ValidatePath(p).Err?
    ensures r.Ok? ==> r.value == Collect(root + p)
  {
    var valid :- ValidatePath(p);
    Ok(Collect(root + valid))
  }

  /**
    An absolute client path passes validation and replaces the root: with the root
    `/srv/files`, the path `/etc/passwd` is served as `/etc/passwd`.
  */
  lemma AbsolutePathEscapes()
    ensures var root := [RootDir, Normal("srv"), Normal("files")];
            var p := [RootDir, Normal("etc"), Normal("passwd")];
            SubpathAsWritten(root, p) == Ok(p)
  {
    var root := [RootDir, Normal("srv"), Normal("files")];
    var p := [RootDir, Normal("etc"), Normal("passwd")];
    assert ValidatePath(p).Ok?;
    assert Relative(p[1..]);
    CollectFromRoot(root, p);
  }

  /** The validation the confinement needs: neither `..` nor a root component. */
  function ValidateConfined(p: Path): (r: Result<Path, IoError>)
    ensures r.Ok? <==> Relative(p) && forall i :: 0 <= i < |p| ==> p[i] != ParentDir
    ensures r.Err? ==> r.error == InvalidInput
    ensures r.Ok? ==> r.value == p
  {
    if exists i :: 0 <= i < |p| && (p[i] == ParentDir || p[i] == RootDir) then Err(InvalidInput) else Ok(p)
  }

  /** The corrected `subpath`: every accepted path lies under the root. */
  function Subpath(root: Path, p: Path): (r: Result<Path, IoError>)
    requires WellFormed(root)
    ensures r.Ok? <==> ValidateConfined(p).Ok?
    ensures r.Ok? ==> r.value == root + p
    ensures r.Ok? ==> r.value[..|root|] == root
    ensures r.Ok? ==> forall i :: |root| <= i < |r.value| ==> r.value[i] != ParentDir && !r.value[i].RootDir?
  {
    var valid :- ValidateConfined(p);
    CollectRelative(root, valid);
    CollectWellFormed(root);
    Ok(Collect(root + valid))
  }

  /** Both versions agree on every relative path. */
  lemma SubpathAgrees(root: Path, p: Path)
    requires WellFormed(root) && Relative(p)
    ensures Subpath(root, p) == SubpathAsWritten(root, p)
  {
    if ValidatePath(p).Ok? {
      CollectRelative(root, p);
      CollectWellFormed(root);
    }
  }

  /** `is_appledouble`: a UTF-8 name (None when it is not UTF-8) starting with "._". */
  predicate IsAppleDouble(name: Option<string>)
  {
    name.Some? && |name.value| >= 2 && name.value[..2] == AppleDoublePrefix
  }

  /** The name filter of `list`: AppleDouble sidecars are dropped, the rest keep their order. */
  function Listed(names: seq<Option<string>>): (r: seq<Option<string>>)
    ensures forall n :: n in r <==> n in names && !IsAppleDouble(n)
    ensures |r| <= |names|
  {
    if |names| == 0 then []
    else if IsAppleDouble(names[0]) then Listed(names[1..])
    else [names[0]] + Listed(names[1..])
  }

  /** The sidecar of any listed file is hidden from the listing. */
  lemma SidecarHidden(p: Path)
    requires FileName(p).Some?
    ensures IsAppleDouble(FileName(AppleDoublePath(p)))
  {
    var n := FileName(AppleDoublePath(p)).value;
    assert n == AppleDoublePrefix + FileName(p).value;
    assert n[..2] == AppleDoublePrefix;
  }

  type uint64 = x: int | 0 <= x < 0x1_0000_0000_0000_0000

  datatype ExtendedMetadata = ExtendedMetadata(dataLen: uint64, rsrcLen: uint64, fileType: Requests.FourCC, creator: Requests.FourCC)

  const Folder: Requests.FourCC := [0x66, 0x6c, 0x64, 0x72]
  const NoCreator: Requests.FourCC := [0, 0, 0, 0]

  /** `ExtendedMetadata::directory`: no data, no resources, type "fldr", an all-zero creator. */
  const DirectoryMetadata: ExtendedMetadata := ExtendedMetadata(0, 0, Folder, NoCreator)

  /** `apple_magic`: the sniffed 8-byte magic is the creator, then the type. */
  function AppleMagic(magic: seq<uint8>, dataLen: uint64): (r: ExtendedMetadata)
    requires |magic| == 8
    ensures r.creator + r.fileType == magic && r.dataLen == dataLen && r.rsrcLen == 0
  {
    ExtendedMetadata(dataLen, 0, magic[4..], magic[..4])
  }

  /** A listing entry: a path and its metadata. */
  datatype DirEntry = DirEntry(path: Path, meta: ExtendedMetadata)

  /** `total_size`, a 64-bit sum that panics on overflow. */
  function TotalSize(m: ExtendedMetadata): (r: uint64)
    requires m.dataLen + m.rsrcLen < 0x1_0000_0000_0000_0000
    ensures r >= m.dataLen && r >= m.rsrcLen && r - m.dataLen == m.rsrcLen
  {
    m.dataLen + m.rsrcLen
  }

  /**
    `FileNameWithInfo::try_from(DirEntry)`: the file name must exist and encode to
    MacRoman (else `InvalidData`); the size is the total size truncated to `i32` and the
    script is 0.
  */
  function ToFileNameWithInfo(e: DirEntry, macRoman: string -> Option<seq<uint8>>): (r: Result<Requests.FileNameWithInfo, IoError>)
    requires e.meta.dataLen + e.meta.rsrcLen < 0x1_0000_0000_0000_0000
    ensures r.Err? <==> FileName(e.path).None? || macRoman(FileName(e.path).value).None?
    ensures r.Err? ==> r.error == InvalidData
    ensures r.Ok? ==> r.value.fileName == macRoman(FileName(e.path).value).value
    ensures r.Ok? ==> r.value.fileType == e.meta.fileType && r.value.creator == e.meta.creator
    ensures r.Ok? ==> r.value.nameScript == 0 && ToUnsigned(r.value.fileSize, 4) == TotalSize(e.meta) % 0x1_0000_0000
    ensures r.Ok? && TotalSize(e.meta) < 0x8000_0000 ==> r.value.fileSize == TotalSize(e.meta)
  {
    Pow256Values();
    var size := Wrap(TotalSize(e.meta), 4);
    match FileName(e.path)
    case None => Err(InvalidData)
    case Some(name) =>
      match macRoman(name)
      case None => Err(InvalidData)
      case Some(mac) => Ok(Requests.FileNameWithInfo(e.meta.fileType, e.meta.creator, size, 0, mac))
  }

  /** A directory is listed with size 0, type "fldr" and no creator. */
  lemma DirectoryEntry(p: Path, macRoman: string -> Option<seq<uint8>>)
    requires FileName(p).Some? && macRoman(FileName(p).value).Some?
    ensures var r := ToFileNameWithInfo(DirEntry(p, DirectoryMetadata), macRoman);
      r.Ok? && r.value.fileSize == 0 && r.value.fileType == Folder && r.value.creator == NoCreator
  {
    EmptyEntry(DirEntry(p, DirectoryMetadata), macRoman);
  }

  lemma EmptyEntry(e: DirEntry, macRoman: string -> Option<seq<uint8>>)
    requires FileName(e.path).Some? && macRoman(FileName(e.path).value).Some?
    requires e.meta.dataLen == 0 && e.meta.rsrcLen == 0
    ensures var r := ToFileNameWithInfo(e, macRoman);
      r.Ok? && r.value.fileSize == 0 && r.value.fileType == e.meta.fileType && r.value.creator == e.meta.creator
  {
    assert TotalSize(e.meta) == 0;
  }

  /**
    A sniffed file listed under a name that encodes: the entry carries the sniffed type and
    creator, and a data fork under 2 GiB is listed with exactly its size.
  */
  lemma SniffedListing(p: Path, magic: seq<uint8>, dataLen: uint64, macRoman: string -> Option<seq<uint8>>)
    requires |magic| == 8 && dataLen < 0x8000_0000
    requires FileName(p).Some? && macRoman(FileName(p).value).Some?
    ensures ToFileNameWithInfo(DirEntry(p, AppleMagic(magic, dataLen)), macRoman)
      == Ok(Requests.FileNameWithInfo(magic[4..], magic[..4], dataLen, 0, macRoman(FileName(p).value).value))
  {
  }

  /** The size field of a listed entry decodes to the entry's total size when that is under 2 GiB. */
  lemma ListedSizeReadsBack(e: DirEntry, macRoman: string -> Option<seq<uint8>>)
    requires e.meta.dataLen + e.meta.rsrcLen < 0x8000_0000
    requires ToFileNameWithInfo(e, macRoman).Ok? && |ToFileNameWithInfo(e, macRoman).value.fileName| < 0x8000
    ensures var d := Requests.FileNameWithInfoParameter(ToFileNameWithInfo(e, macRoman).value).data;
      DecodeInt(d[8..12]) == e.meta.dataLen + e.meta.rsrcLen && d[..4] == e.meta.fileType && d[4..8] == e.meta.creator
  {
    Requests.FileNameWithInfoFields(ToFileNameWithInfo(e, macRoman).value);
  }

  /** File details: the times are seconds since the epoch. */
  datatype FileInfo = FileInfo(path: Path, meta: ExtendedMetadata, comment: string, createdAt: int, modifiedAt: int)

  /**
    `FileInfo::try_from((path, metadata, magic))`: a missing modification time reads as
    the epoch, a missing creation time as the modification time; the comment is empty.
  */
  function MakeFileInfo(path: Path, modified: Option<int>, created: Option<int>, meta: ExtendedMetadata): (r: FileInfo)
    ensures r.path == path && r.meta == meta && r.comment == ""
    ensures r.modifiedAt == (if modified.Some? then modified.value else 0)
    ensures created.Some? ==> r.createdAt == created.value
    ensures created.None? ==> r.createdAt == r.modifiedAt
  {
    var modifiedAt := modified.GetOr(0);
    FileInfo(path, meta, "", created.GetOr(modifiedAt), modifiedAt)
  }
}
