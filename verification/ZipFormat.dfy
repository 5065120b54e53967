/** The three fixed layouts of APPNOTE.TXT that the reader knows (sections
    4.3.7, 4.3.12 and 4.3.16), each with its decoder and its writer. */
module ZipFormat {
  import opened Bytes

  const END_SIGNATURE: bytes := [0x50, 0x4B, 5, 6]
  const LOCATOR_SIGNATURE: bytes := [0x50, 0x4B, 6, 7]
  const CENTRAL_SIGNATURE: bytes := [0x50, 0x4B, 1, 2]
  const LOCAL_SIGNATURE: bytes := [0x50, 0x4B, 3, 4]

  const END_SIZE := 22
  const CENTRAL_SIZE := 46
  const LOCAL_SIZE := 30

  predicate SignatureAt(data: bytes, at: int, signature: bytes)
    requires |signature| == 4
  {
    0 <= at && at + 4 <= |data| && data[at..at + 4] == signature
  }

  /** End of central directory record, section 4.3.16. */
  datatype EndRecord = EndRecord(
    disk: nat, centralDisk: nat, diskEntries: nat, totalEntries: nat,
    centralSize: nat, centralOffset: nat, comment: bytes)
  {
    ghost predicate Fits() {
      && disk < LIMIT16 && centralDisk < LIMIT16
      && diskEntries < LIMIT16 && totalEntries < LIMIT16
      && centralSize < LIMIT32 && centralOffset < LIMIT32
      && |comment| < LIMIT16
    }

    /** The k-th 16-bit word after the signature. */
    ghost function Field(k: nat): (w: nat)
      requires Fits() && k < 9
      ensures w < LIMIT16
    {
      if k == 0 then disk else if k == 1 then centralDisk
      else if k == 2 then diskEntries else if k == 3 then totalEntries
      else if k == 4 then Low(centralSize) else if k == 5 then High(centralSize)
      else if k == 6 then Low(centralOffset) else if k == 7 then High(centralOffset)
      else |comment|
    }

    ghost function Fields(): (ws: seq<nat>)
      requires Fits()
      ensures |ws| == 9 && AllWords(ws)
      ensures forall k :: 0 <= k < 9 ==> ws[k] == Field(k)
    {
      seq(9, k requires 0 <= k < 9 => Field(k))
    }

    ghost function Encode(): (s: bytes)
      requires Fits()
      ensures |s| == END_SIZE + |comment|
    {
      END_SIGNATURE + Words(Fields()) + comment
    }
  }

  /** The record whose fixed part starts at `at` and whose comment runs to the end of the data. */
  function EndRecordAt(data: bytes, at: nat): (r: EndRecord)
    requires at + END_SIZE <= |data|
  {
    EndRecord(U16(data, at + 4), U16(data, at + 6), U16(data, at + 8), U16(data, at + 10),
              U32(data, at + 12), U32(data, at + 16), data[at + END_SIZE..])
  }

  /** Central directory file header, section 4.3.12. */
  datatype CentralRecord = CentralRecord(
    madeBy: nat, needed: nat, flags: nat, method_: nat, time: nat, date: nat,
    crc: nat, compressedSize: nat, uncompressedSize: nat,
    diskStart: nat, internalAttributes: nat, externalAttributes: nat, localOffset: nat,
    name: bytes, extra: bytes, comment: bytes)
  {
    ghost predicate Fits() {
      && madeBy < LIMIT16 && needed < LIMIT16 && flags < LIMIT16 && method_ < LIMIT16
      && time < LIMIT16 && date < LIMIT16
      && crc < LIMIT32 && compressedSize < LIMIT32 && uncompressedSize < LIMIT32
      && diskStart < LIMIT16 && internalAttributes < LIMIT16
      && externalAttributes < LIMIT32 && localOffset < LIMIT32
      && |name| < LIMIT16 && |extra| < LIMIT16 && |comment| < LIMIT16
    }

    /** The k-th 16-bit word after the signature. */
    ghost function Field(k: nat): (w: nat)
      requires Fits() && k < 21
      ensures w < LIMIT16
    {
      if k == 0 then madeBy else if k == 1 then needed
      else if k == 2 then flags else if k == 3 then method_
      else if k == 4 then time else if k == 5 then date
      else if k == 6 then Low(crc) else if k == 7 then High(crc)
      else if k == 8 then Low(compressedSize) else if k == 9 then High(compressedSize)
      else if k == 10 then Low(uncompressedSize) else if k == 11 then High(uncompressedSize)
      else if k == 12 then |name| else if k == 13 then |extra| else if k == 14 then |comment|
      else if k == 15 then diskStart else if k == 16 then internalAttributes
      else if k == 17 then Low(externalAttributes) else if k == 18 then High(externalAttributes)
      else if k == 19 then Low(localOffset) else High(localOffset)
    }

    ghost function Fields(): (ws: seq<nat>)
      requires Fits()
      ensures |ws| == 21 && AllWords(ws)
      ensures forall k :: 0 <= k < 21 ==> ws[k] == Field(k)
    {
      seq(21, k requires 0 <= k < 21 => Field(k))
    }

    ghost function Encode(): (s: bytes)
      requires Fits()
      ensures |s| == Length()
    {
      CENTRAL_SIGNATURE + Words(Fields()) + name + extra + comment
    }

    function Length(): nat {
      CENTRAL_SIZE + |name| + |extra| + |comment|
    }
  }

  function CentralRecordEnd(data: bytes, at: nat): nat
    requires at + CENTRAL_SIZE <= |data|
  {
    at + CENTRAL_SIZE + U16(data, at + 28) + U16(data, at + 30) + U16(data, at + 32)
  }

  function CentralRecordAt(data: bytes, at: nat): (r: CentralRecord)
    requires at + CENTRAL_SIZE <= |data| && CentralRecordEnd(data, at) <= |data|
  {
    var nameEnd := at + CENTRAL_SIZE + U16(data, at + 28);
    var extraEnd := nameEnd + U16(data, at + 30);
    CentralRecord(
      U16(data, at + 4), U16(data, at + 6), U16(data, at + 8), U16(data, at + 10),
      U16(data, at + 12), U16(data, at + 14),
      U32(data, at + 16), U32(data, at + 20), U32(data, at + 24),
      U16(data, at + 34), U16(data, at + 36), U32(data, at + 38), U32(data, at + 42),
      data[at + CENTRAL_SIZE..nameEnd], data[nameEnd..extraEnd],
      data[extraEnd..CentralRecordEnd(data, at)])
  }

  /** Local file header, section 4.3.7, with the member data that follows it. */
  datatype LocalRecord = LocalRecord(
    needed: nat, flags: nat, method_: nat, time: nat, date: nat,
    crc: nat, compressedSize: nat, uncompressedSize: nat,
    name: bytes, extra: bytes)
  {
    ghost predicate Fits() {
      && needed < LIMIT16 && flags < LIMIT16 && method_ < LIMIT16 && time < LIMIT16 && date < LIMIT16
      && crc < LIMIT32 && compressedSize < LIMIT32 && uncompressedSize < LIMIT32
      && |name| < LIMIT16 && |extra| < LIMIT16
    }

    /** The k-th 16-bit word after the signature. */
    ghost function Field(k: nat): (w: nat)
      requires Fits() && k < 13
      ensures w < LIMIT16
    {
      if k == 0 then needed else if k == 1 then flags else if k == 2 then method_
      else if k == 3 then time else if k == 4 then date
      else if k == 5 then Low(crc) else if k == 6 then High(crc)
      else if k == 7 then Low(compressedSize) else if k == 8 then High(compressedSize)
      else if k == 9 then Low(uncompressedSize) else if k == 10 then High(uncompressedSize)
      else if k == 11 then |name| else |extra|
    }

    ghost function Fields(): (ws: seq<nat>)
      requires Fits()
      ensures |ws| == 13 && AllWords(ws)
      ensures forall k :: 0 <= k < 13 ==> ws[k] == Field(k)
    {
      seq(13, k requires 0 <= k < 13 => Field(k))
    }

    ghost function Header(): (s: bytes)
      requires Fits()
      ensures |s| == LOCAL_SIZE
    {
      LOCAL_SIGNATURE + Words(Fields())
    }

    ghost function Encode(): (s: bytes)
      requires Fits()
      ensures |s| == LOCAL_SIZE + |name| + |extra|
    {
      Header() + name + extra
    }
  }

  function LocalRecordEnd(data: bytes, at: nat): nat
    requires at + LOCAL_SIZE <= |data|
  {
    at + LOCAL_SIZE + U16(data, at + 26) + U16(data, at + 28)
  }

  function LocalRecordAt(data: bytes, at: nat): (r: LocalRecord)
    requires at + LOCAL_SIZE <= |data| && LocalRecordEnd(data, at) <= |data|
  {
    var nameEnd := at + LOCAL_SIZE + U16(data, at + 26);
    LocalRecord(
      U16(data, at + 4), U16(data, at + 6), U16(data, at + 8), U16(data, at + 10), U16(data, at + 12),
      U32(data, at + 14), U32(data, at + 18), U32(data, at + 22),
      data[at + LOCAL_SIZE..nameEnd], data[nameEnd..LocalRecordEnd(data, at)])
  }

  // -------------------------------------------------- decoding undoes encoding

  /** Decoding what `Encode` wrote, behind any prefix, gives the record back. */
  lemma EndDecodesEncode(prefix: bytes, r: EndRecord)
    requires r.Fits()
    ensures SignatureAt(prefix + r.Encode(), |prefix|, END_SIGNATURE)
    ensures EndRecordAt(prefix + r.Encode(), |prefix|) == r
    ensures U16(prefix + r.Encode(), |prefix| + 20) == |r.comment|
  {
    var at := |prefix|;
    ghost var words, data := Words(r.Fields()), prefix + r.Encode();
    assert data == prefix + (END_SIGNATURE + words + r.comment);
    assert data[at..at + 4] == END_SIGNATURE;
    assert data[at + 4..at + END_SIZE] == words;
    assert data[at + END_SIZE..] == r.comment;
    ReadsWords(data, at + 4, r.Fields());
    EndFromFields(data, at, r);
  }

  lemma EndFromFields(data: bytes, at: nat, r: EndRecord)
    requires r.Fits() && at + END_SIZE <= |data| && data[at + END_SIZE..] == r.comment
    requires forall k :: 0 <= k < 9 ==> U16(data, at + 4 + 2 * k) == r.Field(k)
    ensures EndRecordAt(data, at) == r && U16(data, at + 20) == |r.comment|
  {
    assert r.Field(0) == U16(data, at + 4) && r.Field(1) == U16(data, at + 6) && r.Field(2) == U16(data, at + 8);
    assert r.Field(3) == U16(data, at + 10) && r.Field(4) == U16(data, at + 12) && r.Field(5) == U16(data, at + 14);
    assert r.Field(6) == U16(data, at + 16) && r.Field(7) == U16(data, at + 18) && r.Field(8) == U16(data, at + 20);
  }

  /** Encoding what was decoded gives the bytes back. */
  lemma EndEncodesDecode(data: bytes, at: nat)
    requires at + END_SIZE <= |data| && SignatureAt(data, at, END_SIGNATURE)
    requires at + END_SIZE + U16(data, at + 20) == |data|
    ensures EndRecordAt(data, at).Fits()
    ensures EndRecordAt(data, at).Encode() == data[at..]
  {
    var r := EndRecordAt(data, at);
    U32Halves(data, at + 12);
    U32Halves(data, at + 16);
    WritesWords(data, at + 4, r.Fields());
    assert data[at..] == data[at..at + 4] + data[at + 4..at + END_SIZE] + data[at + END_SIZE..];
  }

  lemma CentralWords(data: bytes, at: nat, r: CentralRecord)
    requires r.Fits() && at + CENTRAL_SIZE <= |data|
    requires forall k :: 0 <= k < 21 ==> U16(data, at + 4 + 2 * k) == r.Field(k)
    ensures U16(data, at + 4) == r.madeBy && U16(data, at + 6) == r.needed && U16(data, at + 8) == r.flags
    ensures U16(data, at + 10) == r.method_ && U16(data, at + 12) == r.time && U16(data, at + 14) == r.date
    ensures U16(data, at + 28) == |r.name| && U16(data, at + 30) == |r.extra| && U16(data, at + 32) == |r.comment|
    ensures U16(data, at + 34) == r.diskStart && U16(data, at + 36) == r.internalAttributes
  {
    assert r.Field(0) == U16(data, at + 4) && r.Field(1) == U16(data, at + 6) && r.Field(2) == U16(data, at + 8);
    assert r.Field(3) == U16(data, at + 10) && r.Field(4) == U16(data, at + 12) && r.Field(5) == U16(data, at + 14);
    assert r.Field(12) == U16(data, at + 28) && r.Field(13) == U16(data, at + 30) && r.Field(14) == U16(data, at + 32);
    assert r.Field(15) == U16(data, at + 34) && r.Field(16) == U16(data, at + 36);
  }

  lemma CentralDoubleWords(data: bytes, at: nat, r: CentralRecord)
    requires r.Fits() && at + CENTRAL_SIZE <= |data|
    requires forall k :: 0 <= k < 21 ==> U16(data, at + 4 + 2 * k) == r.Field(k)
    ensures U32(data, at + 16) == r.crc && U32(data, at + 20) == r.compressedSize
    ensures U32(data, at + 24) == r.uncompressedSize
    ensures U32(data, at + 38) == r.externalAttributes && U32(data, at + 42) == r.localOffset
  {
    assert r.Field(6) == U16(data, at + 16) && r.Field(7) == U16(data, at + 18);
    assert r.Field(8) == U16(data, at + 20) && r.Field(9) == U16(data, at + 22);
    assert r.Field(10) == U16(data, at + 24) && r.Field(11) == U16(data, at + 26);
    assert r.Field(17) == U16(data, at + 38) && r.Field(18) == U16(data, at + 40);
    assert r.Field(19) == U16(data, at + 42) && r.Field(20) == U16(data, at + 44);
  }

  lemma CentralFromFields(data: bytes, at: nat, r: CentralRecord)
    requires r.Fits() && at + r.Length() <= |data|
    requires forall k :: 0 <= k < 21 ==> U16(data, at + 4 + 2 * k) == r.Field(k)
    requires data[at + 46..at + 46 + |r.name|] == r.name
    requires data[at + 46 + |r.name|..at + 46 + |r.name| + |r.extra|] == r.extra
    requires data[at + 46 + |r.name| + |r.extra|..at + r.Length()] == r.comment
    ensures CentralRecordEnd(data, at) == at + r.Length()
    ensures CentralRecordAt(data, at) == r
  {
    hide U16;
    hide U32;
    CentralWords(data, at, r);
    CentralDoubleWords(data, at, r);
  }

  lemma FiveParts(prefix: bytes, signature: bytes, words: bytes, name: bytes, extra: bytes, comment: bytes, rest: bytes)
    requires |signature| == 4 && |words| == 42
    ensures var data, at := prefix + (signature + words + name + extra + comment) + rest, |prefix|;
      && at + 46 + |name| + |extra| + |comment| <= |data|
      && data[at..at + 4] == signature && data[at + 4..at + 46] == words
      && data[at + 46..at + 46 + |name|] == name
      && data[at + 46 + |name|..at + 46 + |name| + |extra|] == extra
      && data[at + 46 + |name| + |extra|..at + 46 + |name| + |extra| + |comment|] == comment
  {
  }

  /** Decoding what `Encode` wrote, between any two neighbours, gives the record back. */
  lemma CentralDecodesEncode(prefix: bytes, r: CentralRecord, rest: bytes)
    requires r.Fits()
    ensures var data := prefix + r.Encode() + rest;
      && SignatureAt(data, |prefix|, CENTRAL_SIGNATURE)
      && CentralRecordEnd(data, |prefix|) == |prefix| + r.Length()
      && CentralRecordAt(data, |prefix|) == r
  {
    ghost var data := prefix + r.Encode() + rest;
    FiveParts(prefix, CENTRAL_SIGNATURE, Words(r.Fields()), r.name, r.extra, r.comment, rest);
    ReadsWords(data, |prefix| + 4, r.Fields());
    CentralFromFields(data, |prefix|, r);
  }

  lemma CutInFive(data: bytes, a: nat, b: nat, c: nat, d: nat, e: nat, f: nat)
    requires a <= b <= c <= d <= e <= f <= |data|
    ensures data[a..f] == data[a..b] + data[b..c] + data[c..d] + data[d..e] + data[e..f]
  {
    JoinSlices(data, a, b, c);
    JoinSlices(data, a, c, d);
    JoinSlices(data, a, d, e);
    JoinSlices(data, a, e, f);
  }

  lemma JoinSlices(data: bytes, a: nat, b: nat, c: nat)
    requires a <= b <= c <= |data|
    ensures data[a..c] == data[a..b] + data[b..c]
  {
  }

  /** Encoding what was decoded gives the bytes back. */
  lemma CentralEncodesDecode(data: bytes, at: nat)
    requires at + CENTRAL_SIZE <= |data| && SignatureAt(data, at, CENTRAL_SIGNATURE)
    requires CentralRecordEnd(data, at) <= |data|
    ensures CentralRecordAt(data, at).Fits()
    ensures CentralRecordAt(data, at).Encode() == data[at..CentralRecordEnd(data, at)]
  {
    var r := CentralRecordAt(data, at);
    var nameEnd := at + 46 + |r.name|;
    CentralFieldsRead(data, at);
    WritesWords(data, at + 4, r.Fields());
    CutInFive(data, at, at + 4, at + 46, nameEnd, nameEnd + |r.extra|, CentralRecordEnd(data, at));
  }

  lemma U32Halves(data: bytes, i: nat)
    requires i + 4 <= |data|
    ensures Low(U32(data, i)) == U16(data, i) && High(U32(data, i)) == U16(data, i + 2)
  {
  }

  lemma CentralFieldsRead(data: bytes, at: nat)
    requires at + CENTRAL_SIZE <= |data| && CentralRecordEnd(data, at) <= |data|
    ensures CentralRecordAt(data, at).Fits()
    ensures forall k :: 0 <= k < 21 ==> U16(data, at + 4 + 2 * k) == CentralRecordAt(data, at).Field(k)
  {
    U32Halves(data, at + 16);
    U32Halves(data, at + 20);
    U32Halves(data, at + 24);
    U32Halves(data, at + 38);
    U32Halves(data, at + 42);
    hide U16;
    hide U32;
    hide Low;
    hide High;
  }

  /** The fields of a written local header that the reader looks at. */
  lemma LocalDecodesHeader(r: LocalRecord)
    requires r.Fits()
    ensures SignatureAt(r.Header(), 0, LOCAL_SIGNATURE)
    ensures U16(r.Header(), 6) == r.flags && U16(r.Header(), 8) == r.method_
    ensures U16(r.Header(), 26) == |r.name| && U16(r.Header(), 28) == |r.extra|
  {
    ghost var header, ws := r.Header(), r.Fields();
    assert header[0..4] == LOCAL_SIGNATURE && header[4..30] == Words(ws);
    ReadsWord(header, 4, ws, 1);
    ReadsWord(header, 4, ws, 2);
    ReadsWord(header, 4, ws, 11);
    ReadsWord(header, 4, ws, 12);
  }

  lemma LocalFieldsRead(data: bytes, at: nat)
    requires at + LOCAL_SIZE <= |data| && LocalRecordEnd(data, at) <= |data|
    ensures LocalRecordAt(data, at).Fits()
    ensures forall k :: 0 <= k < 13 ==> U16(data, at + 4 + 2 * k) == LocalRecordAt(data, at).Field(k)
  {
    U32Halves(data, at + 14);
    U32Halves(data, at + 18);
    U32Halves(data, at + 22);
  }

  /** Encoding what was decoded gives the bytes back. */
  lemma LocalEncodesDecode(data: bytes, at: nat)
    requires at + LOCAL_SIZE <= |data| && SignatureAt(data, at, LOCAL_SIGNATURE)
    requires LocalRecordEnd(data, at) <= |data|
    ensures LocalRecordAt(data, at).Fits()
    ensures LocalRecordAt(data, at).Encode() == data[at..LocalRecordEnd(data, at)]
  {
    var r := LocalRecordAt(data, at);
    var nameEnd := at + 30 + |r.name|;
    LocalFieldsRead(data, at);
    WritesWords(data, at + 4, r.Fields());
    CutInFive(data, at, at + 4, at + 30, nameEnd, LocalRecordEnd(data, at), LocalRecordEnd(data, at));
    assert r.Encode() == data[at..at + 4] + data[at + 4..at + 30] + data[at + 30..nameEnd] + data[nameEnd..LocalRecordEnd(data, at)];
  }

  // ------------------------------------------------------- the layouts, byte by byte

  /** Integers are little-endian. */
  lemma LittleEndian(low: byte, high: byte)
    ensures U16([low, high], 0) == low as int + 256 * high as int
    ensures Words([low as int + 256 * high as int]) == [low, high]
  {
    var w := low as int + 256 * high as int;
    assert w % 0x100 == low && w / 0x100 == high;
    assert [w][1..] == [];
  }

  /** Section 4.3.16: where the fields of a written end record stand. */
  lemma EndLayout(r: EndRecord)
    requires r.Fits()
    ensures var s := r.Encode();
      && |s| == 22 + |r.comment| && s[..4] == [0x50, 0x4B, 5, 6] && s[22..] == r.comment
      && U16(s, 4) == r.disk && U16(s, 6) == r.centralDisk && U16(s, 8) == r.diskEntries && U16(s, 10) == r.totalEntries
      && U32(s, 12) == r.centralSize && U32(s, 16) == r.centralOffset && U16(s, 20) == |r.comment|
  {
    EndDecodesEncode([], r);
    assert [] + r.Encode() == r.Encode();
  }

  /** Section 4.3.12: the same of a central directory header. */
  lemma CentralLayout(r: CentralRecord)
    requires r.Fits()
    ensures var s := r.Encode();
      && |s| == 46 + |r.name| + |r.extra| + |r.comment| && s[..4] == [0x50, 0x4B, 1, 2]
      && U16(s, 8) == r.flags && U16(s, 10) == r.method_
      && U32(s, 16) == r.crc && U32(s, 20) == r.compressedSize && U32(s, 24) == r.uncompressedSize
      && U16(s, 28) == |r.name| && U16(s, 30) == |r.extra| && U16(s, 32) == |r.comment|
      && U16(s, 34) == r.diskStart && U32(s, 42) == r.localOffset
      && s[46..46 + |r.name|] == r.name && s[46 + |r.name|..46 + |r.name| + |r.extra|] == r.extra
  {
    ghost var s := r.Encode();
    CentralSlices(r);
    hide CentralRecord.Encode;
    ReadsWords(s, 4, r.Fields());
    hide U16;
    hide U32;
    CentralWords(s, 0, r);
    CentralDoubleWords(s, 0, r);
  }

  lemma CentralSlices(r: CentralRecord)
    requires r.Fits()
    ensures var s := r.Encode();
      && s[..4] == CENTRAL_SIGNATURE && s[4..46] == Words(r.Fields())
      && s[46..46 + |r.name|] == r.name && s[46 + |r.name|..46 + |r.name| + |r.extra|] == r.extra
  {
    ghost var words := Words(r.Fields());
    FiveParts([], CENTRAL_SIGNATURE, words, r.name, r.extra, r.comment, []);
    assert [] + (CENTRAL_SIGNATURE + words + r.name + r.extra + r.comment) + [] == r.Encode();
  }

  /** Section 4.3.7: the same of a local file header. */
  lemma LocalLayout(r: LocalRecord)
    requires r.Fits()
    ensures var s := r.Encode();
      && |s| == 30 + |r.name| + |r.extra| && s[..4] == [0x50, 0x4B, 3, 4]
      && U16(s, 6) == r.flags && U16(s, 8) == r.method_ && U16(s, 26) == |r.name| && U16(s, 28) == |r.extra|
      && s[30..30 + |r.name|] == r.name && s[30 + |r.name|..] == r.extra
  {
    LocalDecodesHeader(r);
    ghost var s, header := r.Encode(), r.Header();
    hide LocalRecord.Header;
    assert s == header + r.name + r.extra;
    assert forall i :: 0 <= i < 30 ==> s[i] == header[i];
  }
}
