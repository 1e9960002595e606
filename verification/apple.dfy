/**
  The AppleSingle/AppleDouble version 2 header (Apple's format note, reproduced in the
  appendix of RFC 1740): an 8-byte magic and version, 16 filler bytes, a big-endian
  16-bit entry count, then one 12-byte descriptor (id, offset, length; each a big-endian
  32-bit unsigned integer) per entry.
*/
module Apple {
  import opened Wrappers
  import opened Wire

  type uint32 = x: int | 0 <= x < 0x1_0000_0000

  /** The entry kinds; 7 is skipped. */
  datatype EntryId =
    | DataFork | ResourceFork | RealName | Comment | IconBW | IconColor
    | FileDatesInfo | FinderInfo | MacintoshFileInfo | ProDOSFileInfo | MSDOSFileInfo
    | ShortName | AFPFileInfo | DirectoryID

  function EntryCode(e: EntryId): uint32
  {
    match e
    case DataFork => 1
    case ResourceFork => 2
    case RealName => 3
    case Comment => 4
    case IconBW => 5
    case IconColor => 6
    case FileDatesInfo => 8
    case FinderInfo => 9
    case MacintoshFileInfo => 10
    case ProDOSFileInfo => 11
    case MSDOSFileInfo => 12
    case ShortName => 13
    case AFPFileInfo => 14
    case DirectoryID => 15
  }

  /** `EntryId::try_from(u32)`. */
  function EntryFromCode(c: int): (r: Option<EntryId>)
    ensures r.Some? <==> 1 <= c <= 15 && c != 7
    ensures r.Some? ==> EntryCode(r.value) == c
  {
    match c
    case 1 => Some(DataFork)
    case 2 => Some(ResourceFork)
    case 3 => Some(RealName)
    case 4 => Some(Comment)
    case 5 => Some(IconBW)
    case 6 => Some(IconColor)
    case 8 => Some(FileDatesInfo)
    case 9 => Some(FinderInfo)
    case 10 => Some(MacintoshFileInfo)
    case 11 => Some(ProDOSFileInfo)
    case 12 => Some(MSDOSFileInfo)
    case 13 => Some(ShortName)
    case 14 => Some(AFPFileInfo)
    case 15 => Some(DirectoryID)
    case _ => None
  }

  lemma EntryCodeRoundTrip(e: EntryId)
    ensures EntryFromCode(EntryCode(e)) == Some(e)
  {
  }

  datatype EntryDescriptor = EntryDescriptor(id: uint32, offset: uint32, length: uint32)

  /**
    `next_offset`: where the entry's data ends. The 32-bit addition panics on overflow in
    a checked build, so the caller must keep the sum in range.
  */
  function NextOffset(d: EntryDescriptor): (r: uint32)
    requires d.offset + d.length < 0x1_0000_0000
    ensures d.offset <= r && r - d.offset == d.length
  {
    d.offset + d.length
  }

  /** Descriptors laid end to end: each next offset is where the following entry starts. */
  predicate Contiguous(ds: seq<EntryDescriptor>)
  {
    forall i :: 0 <= i < |ds| - 1 ==>
      ds[i].offset + ds[i].length < 0x1_0000_0000 && NextOffset(ds[i]) == ds[i + 1].offset
  }

  /** The entries of a contiguous run cover exactly the sum of their lengths. */
  function TotalLength(ds: seq<EntryDescriptor>): nat
  {
    if |ds| == 0 then 0 else ds[0].length + TotalLength(ds[1..])
  }

  lemma {:induction false} ContiguousSpan(ds: seq<EntryDescriptor>)
    requires |ds| > 0 && Contiguous(ds)
    ensures ds[|ds| - 1].offset + ds[|ds| - 1].length == ds[0].offset + TotalLength(ds)
  {
    if |ds| > 1 {
      assert Contiguous(ds[1..]) by {
        forall i | 0 <= i < |ds[1..]| - 1
          ensures ds[1..][i].offset + ds[1..][i].length < 0x1_0000_0000 && NextOffset(ds[1..][i]) == ds[1..][i + 1].offset
        {
          assert ds[1..][i] == ds[i + 1] && ds[1..][i + 1] == ds[i + 2];
        }
      }
      ContiguousSpan(ds[1..]);
    }
  }

  datatype AppleSingleHeader = AppleSingleHeader(nDescriptors: int, descriptors: seq<EntryDescriptor>)

  const Magic: Bytes := [0x00, 0x05, 0x16, 0x00, 0x00, 0x02, 0x00, 0x00]
  const FillerSize: nat := 16
  const DescriptorSize: nat := 12

  /** `AppleSingleHeader::new`: the count is the number of descriptors, truncated to 16 bits. */
  function NewHeader(ds: seq<EntryDescriptor>): (r: AppleSingleHeader)
    ensures r.descriptors == ds && 0 <= r.nDescriptors < 0x1_0000
    ensures |ds| < 0x1_0000 ==> r.nDescriptors == |ds|
  {
    AppleSingleHeader(|ds| % 0x1_0000, ds)
  }

  /** `calculate_size`: the header's byte size for n entries, a 32-bit product that panics on overflow. */
  function CalculateSize(n: uint32): (r: uint32)
    requires 26 + 12 * n < 0x1_0000_0000
  {
    26 + n * 12
  }

  function EncodeDescriptor(d: EntryDescriptor): (r: Bytes)
    ensures |r| == DescriptorSize
  {
    Pow256Values();
    BeEncode(d.id, 4) + BeEncode(d.offset, 4) + BeEncode(d.length, 4)
  }

  function EncodeDescriptors(ds: seq<EntryDescriptor>): (r: Bytes)
    ensures |r| == DescriptorSize * |ds|
  {
    if |ds| == 0 then [] else EncodeDescriptor(ds[0]) + EncodeDescriptors(ds[1..])
  }

  /** The header as written: magic, zero filler, the stored count, the descriptors. */
  function EncodeHeader(h: AppleSingleHeader): (r: Bytes)
    requires 0 <= h.nDescriptors < 0x1_0000
  {
    Pow256Values();
    Magic + seq(FillerSize, _ => 0) + BeEncode(h.nDescriptors, 2) + EncodeDescriptors(h.descriptors)
  }

  /** A header built by `new` takes exactly `calculate_size` bytes. */
  lemma HeaderSize(ds: seq<EntryDescriptor>)
    requires 26 + 12 * |ds| < 0x1_0000_0000
    ensures |EncodeHeader(NewHeader(ds))| == CalculateSize(|ds|)
  {
  }

  function DecodeDescriptor(s: Bytes): (r: Result<Parsed<EntryDescriptor>, ParseError>)
    ensures r.Ok? <==> |s| >= DescriptorSize
    ensures r.Ok? ==> EncodeDescriptor(r.value.value) + r.value.rest == s
  {
    Pow256Values();
    var id :- TakeUnsigned(s, 4);
    var offset :- TakeUnsigned(id.rest, 4);
    var length :- TakeUnsigned(offset.rest, 4);
    assert s == s[..4] + (id.rest[..4] + (offset.rest[..4] + length.rest));
    Ok(Parsed(EntryDescriptor(id.value, offset.value, length.value), length.rest))
  }

  function DecodeDescriptors(s: Bytes, n: nat): (r: Result<Parsed<seq<EntryDescriptor>>, ParseError>)
    ensures r.Ok? <==> |s| >= DescriptorSize * n
    ensures r.Ok? ==> |r.value.value| == n && EncodeDescriptors(r.value.value) + r.value.rest == s
  {
    if n == 0 then Ok(Parsed([], s))
    else
      var d :- DecodeDescriptor(s);
      var ds :- DecodeDescriptors(d.rest, n - 1);
      assert ([d.value] + ds.value)[1..] == ds.value;
      Ok(Parsed([d.value] + ds.value, ds.rest))
  }

  /**
    The derived reader: the magic must match, the 16 filler bytes are skipped unread, and
    exactly `n_descriptors` descriptors follow.
  */
  function DecodeHeader(s: Bytes): (r: Result<Parsed<AppleSingleHeader>, ParseError>)
    ensures r.Ok? <==> |s| >= 26 && s[..8] == Magic && |s| >= 26 + DescriptorSize * BeDecode(s[24..26])
    ensures r.Ok? ==> r.value.value.nDescriptors == BeDecode(s[24..26]) && |r.value.value.descriptors| == r.value.value.nDescriptors
  {
    var afterMagic :- Tag(s, Magic);
    var afterFiller :- Take(afterMagic, FillerSize);
    var n :- TakeUnsigned(afterFiller.rest, 2);
    BeDecodeEncode(n.value, 2);
    assert afterFiller.rest[..2] == s[24..26];
    var ds :- DecodeDescriptors(n.rest, n.value);
    Ok(Parsed(AppleSingleHeader(n.value, ds.value), ds.rest))
  }

  lemma {:induction false} DescriptorsRoundTrip(ds: seq<EntryDescriptor>, rest: Bytes)
    ensures DecodeDescriptors(EncodeDescriptors(ds) + rest, |ds|) == Ok(Parsed(ds, rest))
  {
    if |ds| > 0 {
      var s := EncodeDescriptors(ds) + rest;
      assert s == EncodeDescriptor(ds[0]) + (EncodeDescriptors(ds[1..]) + rest);
      DescriptorRoundTrip(ds[0], EncodeDescriptors(ds[1..]) + rest);
      DescriptorsRoundTrip(ds[1..], rest);
      assert [ds[0]] + ds[1..] == ds;
    } else {
      assert EncodeDescriptors(ds) + rest == rest;
    }
  }

  lemma DescriptorRoundTrip(d: EntryDescriptor, rest: Bytes)
    ensures DecodeDescriptor(EncodeDescriptor(d) + rest) == Ok(Parsed(d, rest))
  {
    Pow256Values();
    var s := EncodeDescriptor(d) + rest;
    var e := DecodeDescriptor(s).value;
    assert EncodeDescriptor(e.value) + e.rest == EncodeDescriptor(d) + rest;
    assert e.rest == rest;
    var a := EncodeDescriptor(e.value);
    var b := EncodeDescriptor(d);
    assert a == b;
    assert a[..4] == BeEncode(e.value.id, 4) && b[..4] == BeEncode(d.id, 4);
    assert a[4..8] == BeEncode(e.value.offset, 4) && b[4..8] == BeEncode(d.offset, 4);
    assert a[8..] == BeEncode(e.value.length, 4) && b[8..] == BeEncode(d.length, 4);
    BeDecodeEncode(e.value.id, 4);
    BeDecodeEncode(d.id, 4);
    BeDecodeEncode(e.value.offset, 4);
    BeDecodeEncode(d.offset, 4);
    BeDecodeEncode(e.value.length, 4);
    BeDecodeEncode(d.length, 4);
  }

  /** A header made by `new` reads back with the same descriptors and the rest of the file untouched. */
  lemma HeaderRoundTrip(ds: seq<EntryDescriptor>, rest: Bytes)
    requires |ds| < 0x1_0000
    ensures DecodeHeader(EncodeHeader(NewHeader(ds)) + rest) == Ok(Parsed(NewHeader(ds), rest))
  {
    Pow256Values();
    var h := NewHeader(ds);
    var count := BeEncode(|ds|, 2);
    var s := EncodeHeader(h) + rest;
    assert s == Magic + (seq(FillerSize, _ => 0) + (count + (EncodeDescriptors(ds) + rest)));
    assert s[..8] == Magic;
    assert s[24..26] == count;
    BeDecodeEncode(|ds|, 2);
    DescriptorsRoundTrip(ds, rest);
  }

  /** The first descriptor whose id converts to the given entry kind. */
  function FirstEntry(ds: seq<EntryDescriptor>, kind: EntryId): (r: Option<EntryDescriptor>)
    ensures r.None? <==> forall i :: 0 <= i < |ds| ==> ds[i].id != EntryCode(kind)
    ensures r.Some? ==> exists i :: 0 <= i < |ds| && ds[i] == r.value && ds[i].id == EntryCode(kind)
                          && forall j :: 0 <= j < i ==> ds[j].id != EntryCode(kind)
  {
    if |ds| == 0 then None
    else if EntryFromCode(ds[0].id) == Some(kind) then Some(ds[0])
    else
      assert ds[0].id != EntryCode(kind) by {
        if ds[0].id == EntryCode(kind) { EntryCodeRoundTrip(kind); }
      }
      var r := FirstEntry(ds[1..], kind);
      assert forall i :: 1 <= i < |ds| ==> ds[i] == ds[1..][i - 1];
      r
  }

  /** `data_fork`: the first descriptor with id 1. */
  function DataForkOf(h: AppleSingleHeader): (r: Option<EntryDescriptor>)
    ensures r.Some? ==> r.value.id == 1 && r.value in h.descriptors
    ensures r.None? <==> forall i :: 0 <= i < |h.descriptors| ==> h.descriptors[i].id != 1
  {
    FirstEntry(h.descriptors, DataFork)
  }

  /** `resource_fork`: the first descriptor with id 2. */
  function ResourceForkOf(h: AppleSingleHeader): (r: Option<EntryDescriptor>)
    ensures r.Some? ==> r.value.id == 2 && r.value in h.descriptors
    ensures r.None? <==> forall i :: 0 <= i < |h.descriptors| ==> h.descriptors[i].id != 2
  {
    FirstEntry(h.descriptors, ResourceFork)
  }

  /** Only the first of several data-fork descriptors is ever found. */
  lemma ForkIsFirst(h: AppleSingleHeader, i: nat)
    requires i < |h.descriptors| && h.descriptors[i].id == 1
    requires forall j :: 0 <= j < i ==> h.descriptors[j].id != 1
    ensures DataForkOf(h) == Some(h.descriptors[i])
  {
    var ds := h.descriptors;
    var r := DataForkOf(h);
    var k :| 0 <= k < |ds| && ds[k] == r.value && ds[k].id == 1 && forall j :: 0 <= j < k ==> ds[j].id != 1;
    assert k == i;
  }

  /** Likewise only the first of several resource-fork descriptors is ever found. */
  lemma ResourceForkIsFirst(h: AppleSingleHeader, i: nat)
    requires i < |h.descriptors| && h.descriptors[i].id == 2
    requires forall j :: 0 <= j < i ==> h.descriptors[j].id != 2
    ensures ResourceForkOf(h) == Some(h.descriptors[i])
  {
    var ds := h.descriptors;
    var r := ResourceForkOf(h);
    var k :| 0 <= k < |ds| && ds[k] == r.value && ds[k].id == 2 && forall j :: 0 <= j < k ==> ds[j].id != 2;
    assert k == i;
  }
}
