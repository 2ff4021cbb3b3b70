/**
 The footer and the index of the setup payload: what the parser accepts is exactly what the documented layout
 encodes, with every range inside the payload area, no two ranges overlapping and no two names alike.
 */
module PayloadIndex {
  import opened Utf8
  import opened SafePath
  import opened LittleEndian

  const FOOTER_SIZE: nat := 64
  const FORMAT_VERSION: nat := 1
  const BLOCK_SIZE: nat := 0x10_0000
  const MAX_FILES: nat := 4096
  const MAX_TOTAL_BYTES: nat := 0x2_0000_0000
  const MAX_INDEX_BYTES: nat := 0x40_0000
  const FIXED: nat := 40
  const MAGIC: seq<u8> := [67, 69, 83, 69, 84, 85, 80, 49]

  datatype Status =
    | Ok | TooSmall | BadMagic | BadVersion | BadFooterChecksum | BadBounds | BadIndexChecksum | BadIndex | BadPath
    | DuplicatePath | TooManyFiles | TooLarge | BadFileRange | BadMethod | BadBlock | BadFileChecksum | IoError

  datatype Footer = Footer(
    payloadOffset: u64, indexOffset: u64, indexSize: u64, totalSize: u64, fileCount: u32, indexCrc: u32)

  datatype Storage = Store | Lzms

  /** An index entry as it is laid out; the parser ignores `reserved`. */
  datatype Raw = Raw(
    path: seq<u8>, storage: u32, flags: u32, offset: u64, storedSize: u64, size: u64, crc: u32, reserved: u32)

  datatype Entry = Entry(path: seq<u8>, storage: Storage, flags: u32, offset: u64, storedSize: u64, size: u64, crc: u32)

  function ToEntry(r: Raw): Entry {
    Entry(r.path, if r.storage == 0 then Store else Lzms, r.flags, r.offset, r.storedSize, r.size, r.crc)
  }

  // ---------------------------------------------------------------------------------------------
  // The footer
  // ---------------------------------------------------------------------------------------------

  function EncodeFooter(f: Footer, flags: u32, reserved: u32): (s: seq<u8>)
    ensures |s| == FOOTER_SIZE
  {
    var body := MAGIC + WriteLe(FORMAT_VERSION, 4) + WriteLe(flags, 4) + WriteLe(f.payloadOffset, 8)
                + WriteLe(f.indexOffset, 8) + WriteLe(f.indexSize, 8) + WriteLe(f.totalSize, 8)
                + WriteLe(f.fileCount, 4) + WriteLe(f.indexCrc, 4) + WriteLe(reserved, 4);
    body + WriteLe(Checksum(body), 4)
  }

  function ReadFooter(s: seq<u8>): Footer
    requires |s| == FOOTER_SIZE
  {
    Widths();
    Footer(ReadLe(s, 16, 8), ReadLe(s, 24, 8), ReadLe(s, 32, 8), ReadLe(s, 40, 8), ReadLe(s, 48, 4), ReadLe(s, 52, 4))
  }

  /** The bounds a footer must keep in a file of this size. */
  predicate FooterInBounds(f: Footer, fileSize: u64) {
    && fileSize >= FOOTER_SIZE
    && f.payloadOffset <= f.indexOffset
    && f.indexOffset + f.indexSize + FOOTER_SIZE == fileSize
    && 0 < f.indexSize <= MAX_INDEX_BYTES
    && 0 < f.fileCount <= MAX_FILES
    && f.totalSize <= MAX_TOTAL_BYTES
  }

  function ParseFooter(s: seq<u8>, fileSize: u64): (Status, Footer)
    requires |s| == FOOTER_SIZE
  {
    var none := Footer(0, 0, 0, 0, 0, 0);
    if fileSize < FOOTER_SIZE then (TooSmall, none)
    else if s[..8] != MAGIC then (BadMagic, none)
    else if ReadLe(s, 8, 4) != FORMAT_VERSION then (BadVersion, none)
    else if Checksum(s[..60]) != ReadLe(s, 60, 4) then (BadFooterChecksum, none)
    else
      var f := ReadFooter(s);
      var footerStart := Minus(fileSize, FOOTER_SIZE);
      if f.payloadOffset > f.indexOffset || f.indexOffset > footerStart
         || f.indexSize != Minus(footerStart, f.indexOffset) || f.indexSize == 0 || f.indexSize > MAX_INDEX_BYTES
      then (BadBounds, none)
      else if f.fileCount == 0 || f.fileCount > MAX_FILES then (TooManyFiles, none)
      else if f.totalSize > MAX_TOTAL_BYTES then (TooLarge, none)
      else (Ok, f)
  }

  lemma ReadPiece(s: seq<u8>, at: nat, v: nat, n: nat)
    requires at + n <= |s| && s[at..at + n] == WriteLe(v, n) && v < Pow256(n)
    ensures ReadLe(s, at, n) == v
  {
    ReadOfWrite(v, n, s[..at], s[at + n..]);
    assert s == s[..at] + WriteLe(v, n) + s[at + n..];
  }

  lemma FooterPieces(f: Footer, flags: u32, reserved: u32)
    ensures var s := EncodeFooter(f, flags, reserved);
            && s[..8] == MAGIC && s[8..12] == WriteLe(FORMAT_VERSION, 4) && s[16..24] == WriteLe(f.payloadOffset, 8)
            && s[24..32] == WriteLe(f.indexOffset, 8) && s[32..40] == WriteLe(f.indexSize, 8)
            && s[40..48] == WriteLe(f.totalSize, 8) && s[48..52] == WriteLe(f.fileCount, 4)
            && s[52..56] == WriteLe(f.indexCrc, 4) && s[60..64] == WriteLe(Checksum(s[..60]), 4)
  {
    hide WriteLe, Checksum;
    var body := EncodeFooter(f, flags, reserved)[..60];
  }

  lemma FooterFields(f: Footer, flags: u32, reserved: u32)
    ensures var s := EncodeFooter(f, flags, reserved);
            ReadFooter(s) == f && ReadLe(s, 8, 4) == FORMAT_VERSION && ReadLe(s, 60, 4) == Checksum(s[..60])
  {
    Widths();
    FooterPieces(f, flags, reserved);
    hide WriteLe, ReadLe, Checksum, EncodeFooter, Pow256;
    var s := EncodeFooter(f, flags, reserved);
    ReadPiece(s, 8, FORMAT_VERSION, 4);
    ReadPiece(s, 16, f.payloadOffset, 8);
    ReadPiece(s, 24, f.indexOffset, 8);
    ReadPiece(s, 32, f.indexSize, 8);
    ReadPiece(s, 40, f.totalSize, 8);
    ReadPiece(s, 48, f.fileCount, 4);
    ReadPiece(s, 52, f.indexCrc, 4);
    ReadPiece(s, 60, Checksum(s[..60]), 4);
  }

  /** A footer is read back exactly when it keeps its bounds. */
  lemma FooterRoundTrip(f: Footer, flags: u32, reserved: u32, fileSize: u64)
    ensures ParseFooter(EncodeFooter(f, flags, reserved), fileSize) == (Ok, f) <==> FooterInBounds(f, fileSize)
  {
    FooterFields(f, flags, reserved);
    FooterPieces(f, flags, reserved);
    hide WriteLe, ReadLe, Checksum, EncodeFooter, Pow256, ReadFooter;
  }

  lemma CutFooter(s: seq<u8>)
    requires |s| == FOOTER_SIZE
    ensures s[..60] == s[..8] + s[8..12] + s[12..16] + s[16..24] + s[24..32] + s[32..40] + s[40..48]
                       + s[48..52] + s[52..56] + s[56..60]
    ensures s == s[..60] + s[60..64]
  {
  }

  /** What has the magic number, the version and the checksum is an encoded footer. */
  lemma FooterEncodes(s: seq<u8>)
    requires |s| == FOOTER_SIZE && s[..8] == MAGIC && ReadLe(s, 8, 4) == FORMAT_VERSION
    requires ReadLe(s, 60, 4) == Checksum(s[..60])
    ensures ReadLe(s, 12, 4) < TWO32 && ReadLe(s, 56, 4) < TWO32
    ensures s == EncodeFooter(ReadFooter(s), ReadLe(s, 12, 4), ReadLe(s, 56, 4))
  {
    Widths();
    CutFooter(s);
    hide WriteLe, ReadLe, Checksum, Pow256;
    WriteOfRead(s, 8, 4);
    WriteOfRead(s, 12, 4);
    WriteOfRead(s, 16, 8);
    WriteOfRead(s, 24, 8);
    WriteOfRead(s, 32, 8);
    WriteOfRead(s, 40, 8);
    WriteOfRead(s, 48, 4);
    WriteOfRead(s, 52, 4);
    WriteOfRead(s, 56, 4);
    WriteOfRead(s, 60, 4);
  }

  lemma FooterIsSigned(s: seq<u8>, fileSize: u64)
    requires |s| == FOOTER_SIZE && ParseFooter(s, fileSize).0 == Ok
    ensures s[..8] == MAGIC && ReadLe(s, 8, 4) == FORMAT_VERSION && ReadLe(s, 60, 4) == Checksum(s[..60])
  {
    hide ReadLe, Checksum;
  }

  ghost predicate IsFooter(s: seq<u8>, f: Footer) {
    exists flags: u32, reserved: u32 :: s == EncodeFooter(f, flags, reserved)
  }

  /** Exactly the encodings of footers that keep their bounds are accepted, and each as the footer it encodes. */
  lemma ParseFooterMeans(s: seq<u8>, fileSize: u64, f: Footer)
    requires |s| == FOOTER_SIZE
    ensures ParseFooter(s, fileSize) == (Ok, f) <==> IsFooter(s, f) && FooterInBounds(f, fileSize)
  {
    hide ReadLe, Checksum, EncodeFooter, ReadFooter, FooterInBounds, ParseFooter;
    if ParseFooter(s, fileSize) == (Ok, f) {
      FooterIsSigned(s, fileSize);
      AcceptedFooter(s, fileSize);
      FooterEncodes(s);
    }
    if flags: u32, reserved: u32 :| s == EncodeFooter(f, flags, reserved) {
      FooterRoundTrip(f, flags, reserved, fileSize);
    }
  }

  /** Which complaint an intact footer earns, in unbounded arithmetic. */
  lemma FooterComplaints(f: Footer, flags: u32, reserved: u32, fileSize: u64)
    ensures var complaint := ParseFooter(EncodeFooter(f, flags, reserved), fileSize).0;
            if fileSize < 64 then complaint == TooSmall
            else if f.payloadOffset > f.indexOffset || f.indexOffset + f.indexSize + 64 != fileSize
                    || !(0 < f.indexSize <= 4 * 1024 * 1024) then complaint == BadBounds
            else if !(0 < f.fileCount <= 4096) then complaint == TooManyFiles
            else if f.totalSize > 8 * 1024 * 1024 * 1024 then complaint == TooLarge
            else complaint == Ok
  {
    FooterFields(f, flags, reserved);
    FooterPieces(f, flags, reserved);
    hide WriteLe, ReadLe, Checksum, EncodeFooter, Pow256, ReadFooter;
  }

  /** And which complaint what is no footer at all earns. */
  lemma ForeignComplaints(s: seq<u8>, fileSize: u64)
    requires |s| == FOOTER_SIZE && fileSize >= FOOTER_SIZE
    ensures ParseFooter(s, fileSize).0 == BadMagic <==> !SameText(s[..8], "CESETUP1")
    ensures SameText(s[..8], "CESETUP1") ==>
              (ParseFooter(s, fileSize).0 == BadVersion <==> s[8..12] != [1, 0, 0, 0])
    ensures SameText(s[..8], "CESETUP1") && s[8..12] == [1, 0, 0, 0] ==>
              (ParseFooter(s, fileSize).0 == BadFooterChecksum <==> !exists f :: IsFooter(s, f))
  {
    MagicIsText(s[..8]);
    VersionBytes(s);
    ForeignStatus(s, fileSize);
    SignedIsFooter(s);
    hide ReadLe, Checksum, ParseFooter, IsFooter, SameText;
  }

  lemma ForeignStatus(s: seq<u8>, fileSize: u64)
    requires |s| == FOOTER_SIZE && fileSize >= FOOTER_SIZE
    ensures var complaint := ParseFooter(s, fileSize).0;
            && (complaint == BadMagic <==> s[..8] != MAGIC)
            && (complaint == BadVersion <==> s[..8] == MAGIC && ReadLe(s, 8, 4) != FORMAT_VERSION)
            && (complaint == BadFooterChecksum
                <==> s[..8] == MAGIC && ReadLe(s, 8, 4) == FORMAT_VERSION && ReadLe(s, 60, 4) != Checksum(s[..60]))
  {
    hide ReadLe, Checksum, ReadFooter;
  }

  lemma SignedIsFooter(s: seq<u8>)
    requires |s| == FOOTER_SIZE
    ensures (exists f :: IsFooter(s, f))
            <==> s[..8] == MAGIC && ReadLe(s, 8, 4) == FORMAT_VERSION && ReadLe(s, 60, 4) == Checksum(s[..60])
  {
    hide ReadLe, Checksum, EncodeFooter, ReadFooter;
    if s[..8] == MAGIC && ReadLe(s, 8, 4) == FORMAT_VERSION && ReadLe(s, 60, 4) == Checksum(s[..60]) {
      FooterEncodes(s);
      assert IsFooter(s, ReadFooter(s));
    }
    if f, flags: u32, reserved: u32 :| s == EncodeFooter(f, flags, reserved) {
      FooterFields(f, flags, reserved);
      FooterPieces(f, flags, reserved);
    }
  }

  /** The bytes are the ASCII codes of the text. */
  predicate SameText(s: seq<u8>, text: string) {
    |s| == |text| && forall i :: 0 <= i < |s| ==> s[i] == text[i] as nat
  }

  lemma MagicIsText(s: seq<u8>)
    ensures s == MAGIC <==> SameText(s, "CESETUP1")
  {
    assert SameText(MAGIC, "CESETUP1");
  }

  lemma VersionBytes(s: seq<u8>)
    requires |s| == FOOTER_SIZE
    ensures ReadLe(s, 8, 4) == FORMAT_VERSION <==> s[8..12] == [1, 0, 0, 0]
  {
    assert WriteLe(1, 4) == [1, 0, 0, 0] by {
      assert WriteLe(0, 3) == [0] + WriteLe(0, 2) && WriteLe(0, 2) == [0] + WriteLe(0, 1) && WriteLe(0, 1) == [0];
    }
    Widths();
    WriteOfRead(s, 8, 4);
    if s[8..12] == WriteLe(1, 4) {
      ReadPiece(s, 8, 1, 4);
    }
  }

  /** An accepted footer describes ranges inside the file, and no subtraction in the check wrapped. */
  lemma AcceptedFooter(s: seq<u8>, fileSize: u64)
    requires |s| == FOOTER_SIZE && ParseFooter(s, fileSize).0 == Ok
    ensures FooterInBounds(ParseFooter(s, fileSize).1, fileSize)
    ensures ParseFooter(s, fileSize).1 == ReadFooter(s)
  {
    hide ReadLe, Checksum;
  }

  // ---------------------------------------------------------------------------------------------
  // One entry
  // ---------------------------------------------------------------------------------------------

  function EncodeFixed(r: Raw): (s: seq<u8>)
    ensures |s| == FIXED
  {
    WriteLe(r.storage, 4) + WriteLe(r.flags, 4) + WriteLe(r.offset, 8) + WriteLe(r.storedSize, 8) + WriteLe(r.size, 8)
    + WriteLe(r.crc, 4) + WriteLe(r.reserved, 4)
  }

  function EncodeEntry(r: Raw): (s: seq<u8>)
    ensures |s| == EntrySize(r)
  {
    WriteLe(|r.path|, 2) + r.path + EncodeFixed(r)
  }

  function EntrySize(r: Raw): nat {
    2 + |r.path| + FIXED
  }

  /** Whether the buffer holds a whole entry here. */
  predicate Readable(s: seq<u8>, at: nat) {
    at + 2 <= |s| && 1 <= ReadLe(s, at, 2) <= MAX_PATH_CHARS && at + 2 + ReadLe(s, at, 2) + FIXED <= |s|
  }

  function ReadFixed(path: seq<u8>, s: seq<u8>, at: nat): Raw
    requires at + FIXED <= |s|
  {
    Widths();
    Raw(path, ReadLe(s, at, 4), ReadLe(s, at + 4, 4), ReadLe(s, at + 8, 8), ReadLe(s, at + 16, 8),
        ReadLe(s, at + 24, 8), ReadLe(s, at + 32, 4), ReadLe(s, at + 36, 4))
  }

  function ReadRaw(s: seq<u8>, at: nat): Raw
    requires Readable(s, at)
  {
    var n := ReadLe(s, at, 2);
    ReadFixed(s[at + 2..at + 2 + n], s, at + 2 + n)
  }

  lemma SubSlice(s: seq<u8>, lo: nat, hi: nat, i: nat, j: nat)
    requires lo <= hi <= |s| && i <= j <= hi - lo
    ensures s[lo..hi][i..j] == s[lo + i..lo + j]
  {
    assert forall k :: 0 <= k < j - i ==> s[lo..hi][i..j][k] == s[lo + i..lo + j][k];
  }

  lemma CutFixed(w: seq<u8>)
    requires |w| == FIXED
    ensures w == w[0..4] + w[4..8] + w[8..16] + w[16..24] + w[24..32] + w[32..36] + w[36..40]
  {
  }

  lemma FixedPieces(r: Raw)
    ensures var e := EncodeFixed(r);
            && e[0..4] == WriteLe(r.storage, 4) && e[4..8] == WriteLe(r.flags, 4) && e[8..16] == WriteLe(r.offset, 8)
            && e[16..24] == WriteLe(r.storedSize, 8) && e[24..32] == WriteLe(r.size, 8)
            && e[32..36] == WriteLe(r.crc, 4) && e[36..40] == WriteLe(r.reserved, 4)
  {
    hide WriteLe;
    var e := EncodeFixed(r);
    assert e[36..40] == e[36..] == WriteLe(r.reserved, 4);
  }

  lemma WritePiece(s: seq<u8>, at: nat, i: nat, n: nat)
    requires at + FIXED <= |s| && i + n <= FIXED
    ensures WriteLe(ReadLe(s, at + i, n), n) == s[at..at + FIXED][i..i + n]
  {
    WriteOfRead(s, at + i, n);
    SubSlice(s, at, at + FIXED, i, i + n);
  }

  lemma FixedEncodes(path: seq<u8>, s: seq<u8>, at: nat)
    requires at + FIXED <= |s|
    ensures EncodeFixed(ReadFixed(path, s, at)) == s[at..at + FIXED]
  {
    hide WriteLe, ReadLe;
    WritePiece(s, at, 0, 4);
    WritePiece(s, at, 4, 4);
    WritePiece(s, at, 8, 8);
    WritePiece(s, at, 16, 8);
    WritePiece(s, at, 24, 8);
    WritePiece(s, at, 32, 4);
    WritePiece(s, at, 36, 4);
    CutFixed(s[at..at + FIXED]);
  }

  lemma ReadField(s: seq<u8>, at: nat, e: seq<u8>, i: nat, v: nat, n: nat)
    requires at + |e| <= |s| && s[at..at + |e|] == e && i + n <= |e| && e[i..i + n] == WriteLe(v, n) && v < Pow256(n)
    ensures ReadLe(s, at + i, n) == v
  {
    SubSlice(s, at, at + |e|, i, i + n);
    ReadPiece(s, at + i, v, n);
  }

  lemma FixedReads(r: Raw, s: seq<u8>, at: nat)
    requires at + FIXED <= |s| && s[at..at + FIXED] == EncodeFixed(r)
    ensures ReadFixed(r.path, s, at) == r
  {
    Widths();
    FixedPieces(r);
    hide WriteLe, ReadLe, Pow256, EncodeFixed;
    var e := EncodeFixed(r);
    ReadField(s, at, e, 0, r.storage, 4);
    ReadField(s, at, e, 4, r.flags, 4);
    ReadField(s, at, e, 8, r.offset, 8);
    ReadField(s, at, e, 16, r.storedSize, 8);
    ReadField(s, at, e, 24, r.size, 8);
    ReadField(s, at, e, 32, r.crc, 4);
    ReadField(s, at, e, 36, r.reserved, 4);
  }

  lemma ThreeParts(s: seq<u8>, a: nat, b: nat, c: nat, d: nat)
    requires a <= b <= c <= d <= |s|
    ensures s[a..d] == s[a..b] + s[b..c] + s[c..d]
  {
  }

  /** Reading an entry and encoding it gives back its bytes. */
  lemma ReadEncodes(s: seq<u8>, at: nat)
    requires Readable(s, at)
    ensures var r := ReadRaw(s, at);
            1 <= |r.path| <= MAX_PATH_CHARS && at + EntrySize(r) <= |s| && s[at..at + EntrySize(r)] == EncodeEntry(r)
  {
    hide WriteLe, ReadLe, EncodeFixed;
    var n := ReadLe(s, at, 2);
    WriteOfRead(s, at, 2);
    FixedEncodes(s[at + 2..at + 2 + n], s, at + 2 + n);
    ThreeParts(s, at, at + 2, at + 2 + n, at + 2 + n + FIXED);
  }

  lemma EntryPieces(r: Raw)
    ensures var e, n := EncodeEntry(r), |r.path|;
            e[0..2] == WriteLe(n, 2) && e[2..2 + n] == r.path && e[2 + n..2 + n + FIXED] == EncodeFixed(r)
  {
    hide WriteLe, EncodeFixed;
  }

  /** Where an encoded entry starts, reading gives it back. */
  lemma EncodeReads(s: seq<u8>, at: nat, r: Raw)
    requires 1 <= |r.path| <= MAX_PATH_CHARS && at + EntrySize(r) <= |s| && s[at..at + EntrySize(r)] == EncodeEntry(r)
    ensures Readable(s, at) && ReadRaw(s, at) == r
  {
    Widths();
    EntryPieces(r);
    hide WriteLe, ReadLe, EncodeFixed, ReadFixed, Pow256, EncodeEntry;
    var e, n := EncodeEntry(r), |r.path|;
    ReadField(s, at, e, 0, n, 2);
    SubSlice(s, at, at + |e|, 2, 2 + n);
    SubSlice(s, at, at + |e|, 2 + n, 2 + n + FIXED);
    FixedReads(r, s, at + 2 + n);
  }

  // ---------------------------------------------------------------------------------------------
  // All entries
  // ---------------------------------------------------------------------------------------------

  function EncodeEntries(rs: seq<Raw>): seq<u8> {
    if rs == [] then [] else EncodeEntry(rs[0]) + EncodeEntries(rs[1..])
  }

  function BlockCount(size: u64): u64 {
    Plus(size, BLOCK_SIZE - 1) / BLOCK_SIZE
  }

  predicate SafeRelative(path: seq<u8>) {
    0 < |path| <= MAX_PATH_CHARS && Utf8.Valid(path) && SafeComponents(path)
  }

  /** What the entry's own fields must satisfy; plain arithmetic. */
  predicate EntryOk(r: Raw, f: Footer) {
    && SafeRelative(r.path) && r.storage <= 1 && r.size <= MAX_TOTAL_BYTES
    && f.payloadOffset <= r.offset && r.offset + r.storedSize <= f.indexOffset
    && var blocks := (r.size + BLOCK_SIZE - 1) / BLOCK_SIZE;
       if r.storage == 0 then r.storedSize == r.size
       else blocks * 4 <= r.storedSize <= r.size + blocks * 4
  }

  /** The parser's checks on one entry, in its order and its arithmetic. */
  function CheckEntry(r: Raw, f: Footer, total: u64): Status {
    if !SafeRelative(r.path) then BadPath
    else if r.storage > 1 then BadMethod
    else if r.size > MAX_TOTAL_BYTES || total > Minus(MAX_TOTAL_BYTES, r.size) then TooLarge
    else if r.offset < f.payloadOffset || r.offset > f.indexOffset || r.storedSize > Minus(f.indexOffset, r.offset)
    then BadFileRange
    else
      var blocks := BlockCount(r.size);
      if (if r.storage == 0 then r.storedSize != r.size
          else r.storedSize < Times4(blocks) || r.storedSize > Plus(r.size, Times4(blocks)))
      then BadFileRange
      else Ok
  }

  /** No 64-bit operation wraps on the way to acceptance. */
  lemma CheckEntryMeans(r: Raw, f: Footer, total: u64)
    requires total <= MAX_TOTAL_BYTES
    ensures CheckEntry(r, f, total) == Ok <==> EntryOk(r, f) && total + r.size <= MAX_TOTAL_BYTES
  {
    hide SafeRelative;
    if r.size <= MAX_TOTAL_BYTES {
      BlockFacts(r.size);
    }
    hide BlockCount, Times4;
  }

  /** What a stored entry must keep to, in literal terms; a block of content is a MiB, and its header four bytes. */
  lemma EntryOkMeans(r: Raw, f: Footer, blocks: nat)
    requires (blocks == 0 || (blocks - 1) * 1024 * 1024 < r.size) && r.size <= blocks * 1024 * 1024
    ensures EntryOk(r, f) <==>
              && 0 < |r.path| <= 240 && Utf8.Valid(r.path) && SafeComponents(r.path) && r.size <= 8 * 1024 * 1024 * 1024
              && f.payloadOffset <= r.offset && r.offset + r.storedSize <= f.indexOffset
              && ((r.storage == 0 && r.storedSize == r.size)
                  || (r.storage == 1 && 4 * blocks <= r.storedSize <= r.size + 4 * blocks))
  {
    assert (r.size + BLOCK_SIZE - 1) / BLOCK_SIZE == blocks;
  }

  lemma BlockFacts(size: u64)
    requires size <= MAX_TOTAL_BYTES
    ensures var blocks := (size + BLOCK_SIZE - 1) / BLOCK_SIZE;
            && BlockCount(size) == blocks && Times4(BlockCount(size)) == blocks * 4 < TWO32
            && Plus(size, Times4(BlockCount(size))) == size + blocks * 4
  {
  }

  function TotalSize(rs: seq<Raw>): nat {
    if rs == [] then 0 else rs[0].size + TotalSize(rs[1..])
  }

  /** The parser's loop from a cursor on, with `n` entries still to come. */
  function ParseFrom(s: seq<u8>, f: Footer, cursor: nat, n: nat, total: u64): (p: (Status, seq<Raw>))
    requires cursor <= |s|
    ensures p.0 == Ok || p.1 == []
    decreases n
  {
    if n == 0 then
      if cursor != |s| || total != f.totalSize then (BadIndex, []) else (Ok, [])
    else if !Readable(s, cursor) then (BadIndex, [])
    else
      var r := ReadRaw(s, cursor);
      var check := CheckEntry(r, f, total);
      if check != Ok then (check, [])
      else
        var (status, rest) := ParseFrom(s, f, cursor + EntrySize(r), n - 1, Plus(total, r.size));
        (status, if status == Ok then [r] + rest else [])
  }

  ghost predicate Parsed(s: seq<u8>, f: Footer, cursor: nat, n: nat, total: nat, rs: seq<Raw>)
    requires cursor <= |s|
  {
    && |rs| == n && EncodeEntries(rs) == s[cursor..] && total + TotalSize(rs) == f.totalSize
    && forall i :: 0 <= i < n ==> EntryOk(rs[i], f)
  }

  lemma {:induction false} ParseSound(s: seq<u8>, f: Footer, cursor: nat, n: nat, total: u64)
    requires cursor <= |s| && total <= MAX_TOTAL_BYTES && ParseFrom(s, f, cursor, n, total).0 == Ok
    ensures Parsed(s, f, cursor, n, total, ParseFrom(s, f, cursor, n, total).1)
    decreases n
  {
    hide CheckEntry, EntryOk, EncodeEntry, ReadRaw, Readable;
    if n > 0 {
      var r := ReadRaw(s, cursor);
      ReadEncodes(s, cursor);
      CheckEntryMeans(r, f, total);
      ParseSound(s, f, cursor + EntrySize(r), n - 1, total + r.size);
      var rs := ParseFrom(s, f, cursor, n, total).1;
      assert rs[1..] == ParseFrom(s, f, cursor + EntrySize(r), n - 1, total + r.size).1;
      assert s[cursor..] == s[cursor..cursor + EntrySize(r)] + s[cursor + EntrySize(r)..];
    }
  }

  lemma FirstEntryAt(s: seq<u8>, cursor: nat, rs: seq<Raw>)
    requires cursor <= |s| && rs != [] && s[cursor..] == EncodeEntries(rs)
    ensures var end := cursor + EntrySize(rs[0]);
            end <= |s| && s[cursor..end] == EncodeEntry(rs[0]) && s[end..] == EncodeEntries(rs[1..])
  {
    hide EncodeEntry;
    var e := EncodeEntry(rs[0]);
    assert s[cursor..] == e + EncodeEntries(rs[1..]);
    assert s[cursor..cursor + |e|] == s[cursor..][..|e|] == e;
    assert s[cursor + |e|..] == s[cursor..][|e|..];
  }

  lemma ParsedRest(s: seq<u8>, f: Footer, cursor: nat, n: nat, total: u64, rs: seq<Raw>)
    requires cursor <= |s| && n > 0 && Parsed(s, f, cursor, n, total, rs) && f.totalSize <= MAX_TOTAL_BYTES
    ensures rs != [] && EntryOk(rs[0], f) && total + rs[0].size <= MAX_TOTAL_BYTES
    ensures var end := cursor + EntrySize(rs[0]);
            end <= |s| && s[cursor..end] == EncodeEntry(rs[0]) && Parsed(s, f, end, n - 1, total + rs[0].size, rs[1..])
  {
    hide EncodeEntry, EntryOk;
    FirstEntryAt(s, cursor, rs);
  }

  lemma {:induction false} ParseComplete(s: seq<u8>, f: Footer, cursor: nat, n: nat, total: u64, rs: seq<Raw>)
    requires cursor <= |s| && Parsed(s, f, cursor, n, total, rs) && f.totalSize <= MAX_TOTAL_BYTES
    ensures ParseFrom(s, f, cursor, n, total) == (Ok, rs)
    decreases n
  {
    hide CheckEntry, EncodeEntry, ReadRaw, Readable, SafeRelative;
    if n > 0 {
      var r := rs[0];
      ParsedRest(s, f, cursor, n, total, rs);
      hide Parsed, EncodeEntries;
      NamedEntry(r, f);
      EncodeReads(s, cursor, r);
      CheckEntryMeans(r, f, total);
      hide EntryOk;
      ParseComplete(s, f, cursor + EntrySize(r), n - 1, total + r.size, rs[1..]);
      assert rs == [r] + rs[1..] && Plus(total, r.size) == total + r.size;
    } else {
      assert s[cursor..] == [];
    }
  }

  lemma NamedEntry(r: Raw, f: Footer)
    requires EntryOk(r, f)
    ensures 1 <= |r.path| <= MAX_PATH_CHARS
  {
  }

  // ---------------------------------------------------------------------------------------------
  // Names
  // ---------------------------------------------------------------------------------------------

  predicate LexLeq(a: Text, b: Text) {
    if a == [] then true
    else if b == [] then false
    else if a[0] == b[0] then LexLeq(a[1..], b[1..])
    else a[0] < b[0]
  }

  lemma {:induction false} LexAntisymmetric(a: Text, b: Text)
    requires LexLeq(a, b) && LexLeq(b, a)
    ensures a == b
  {
    if a != [] {
      LexAntisymmetric(a[1..], b[1..]);
      assert a == [a[0]] + a[1..] && b == [b[0]] + b[1..];
    }
  }

  lemma {:induction false} LexTransitive(a: Text, b: Text, c: Text)
    requires LexLeq(a, b) && LexLeq(b, c)
    ensures LexLeq(a, c)
  {
    if a != [] && a[0] == b[0] == c[0] {
      LexTransitive(a[1..], b[1..], c[1..]);
    }
  }

  function Names(rs: seq<Raw>): (ns: seq<Text>)
    ensures |ns| == |rs|
  {
    seq(|rs|, i requires 0 <= i < |rs| => Lower(rs[i].path))
  }

  ghost predicate SortedBy(ns: seq<Text>, sorted: seq<Text>) {
    multiset(ns) == multiset(sorted) && forall i :: 0 < i < |sorted| ==> LexLeq(sorted[i - 1], sorted[i])
  }

  ghost predicate Distinct(ns: seq<Text>) {
    forall i, j :: 0 <= i < j < |ns| ==> ns[i] != ns[j]
  }

  lemma {:induction false} SortedLeq(s: seq<Text>, i: nat, j: nat)
    requires (forall k :: 0 < k < |s| ==> LexLeq(s[k - 1], s[k])) && i < j < |s|
    ensures LexLeq(s[i], s[j])
    decreases j
  {
    if i + 1 < j {
      SortedLeq(s, i, j - 1);
      LexTransitive(s[i], s[j - 1], s[j]);
    }
  }

  lemma {:induction false} DistinctCounts(s: seq<Text>)
    ensures Distinct(s) <==> forall x :: multiset(s)[x] <= 1
  {
    if s != [] {
      var n := |s| - 1;
      DistinctCounts(s[..n]);
      assert s == s[..n] + [s[n]];
      if Distinct(s) {
        assert forall i :: 0 <= i < n ==> s[..n][i] == s[i] && s[i] != s[n];
        assert s[n] !in s[..n] && Distinct(s[..n]);
      } else {
        var i, j :| 0 <= i < j < |s| && s[i] == s[j];
        if j < n {
          assert s[..n][i] == s[..n][j];
          var x :| multiset(s[..n])[x] > 1;
          assert multiset(s)[x] > 1;
        } else {
          assert s[n] in multiset(s[..n]) by {
            assert s[..n][i] == s[n];
          }
          assert multiset(s)[s[n]] > 1;
        }
      }
    }
  }

  /** Looking at neighbours in the sorted list is looking at every pair. */
  lemma NeighboursSuffice(ns: seq<Text>, sorted: seq<Text>)
    requires SortedBy(ns, sorted)
    ensures Distinct(ns) <==> forall i :: 0 < i < |sorted| ==> sorted[i - 1] != sorted[i]
  {
    DistinctCounts(ns);
    DistinctCounts(sorted);
    if forall i :: 0 < i < |sorted| ==> sorted[i - 1] != sorted[i] {
      forall i, j | 0 <= i < j < |sorted|
        ensures sorted[i] != sorted[j]
      {
        assert sorted[i + 1 - 1] != sorted[i + 1];
        EqualIsNear(sorted, i, j);
      }
    }
  }

  lemma EqualIsNear(s: seq<Text>, i: nat, j: nat)
    requires (forall k :: 0 < k < |s| ==> LexLeq(s[k - 1], s[k])) && i < j < |s|
    ensures s[i] == s[j] ==> s[i] == s[i + 1]
  {
    SortedLeq(s, i, i + 1);
    if i + 1 < j {
      SortedLeq(s, i + 1, j);
      if s[i] == s[j] {
        LexAntisymmetric(s[i], s[i + 1]);
      }
    }
  }

  // ---------------------------------------------------------------------------------------------
  // Ranges
  // ---------------------------------------------------------------------------------------------

  function End(r: Raw): nat {
    r.offset + r.storedSize
  }

  predicate Apart(a: Raw, b: Raw) {
    End(a) <= b.offset || End(b) <= a.offset
  }

  ghost predicate PairwiseApart(rs: seq<Raw>) {
    forall i, j :: 0 <= i < |rs| && 0 <= j < |rs| && i != j ==> Apart(rs[i], rs[j])
  }

  /** Some order by offset; entries with equal offsets may come in any order. */
  ghost predicate IsOrder(order: seq<nat>, rs: seq<Raw>) {
    && |order| == |rs| && (forall i :: 0 <= i < |order| ==> order[i] < |rs|)
    && (forall i, j :: 0 <= i < j < |order| ==> order[i] != order[j])
    && (forall k :: 0 <= k < |rs| ==> k in order)
    && (forall i, j :: 0 <= i < j < |order| ==> rs[order[i]].offset <= rs[order[j]].offset)
  }

  ghost predicate ChainFits(order: seq<nat>, rs: seq<Raw>)
    requires IsOrder(order, rs)
  {
    forall i :: 0 < i < |order| ==> End(rs[order[i - 1]]) <= rs[order[i]].offset
  }

  /** Where the sort had a choice it put the empty entry first. */
  ghost predicate TiesEmptyFirst(order: seq<nat>, rs: seq<Raw>)
    requires IsOrder(order, rs)
  {
    forall i, j :: 0 <= i < j < |order| && rs[order[i]].offset == rs[order[j]].offset ==> rs[order[i]].storedSize == 0
  }

  /** Comparing neighbours decides every pair, up to the ties the sort left open. */
  lemma ChainMeans(order: seq<nat>, rs: seq<Raw>)
    requires IsOrder(order, rs)
    ensures ChainFits(order, rs) <==> PairwiseApart(rs) && TiesEmptyFirst(order, rs)
  {
    if ChainFits(order, rs) {
      forall i, j | 0 <= i < j < |order|
        ensures End(rs[order[i]]) <= rs[order[j]].offset
      {
        assert End(rs[order[i + 1 - 1]]) <= rs[order[i + 1]].offset;
      }
      forall a, b | 0 <= a < |rs| && 0 <= b < |rs| && a != b
        ensures Apart(rs[a], rs[b])
      {
        assert a in order && b in order;
        var i :| 0 <= i < |order| && order[i] == a;
        var j :| 0 <= j < |order| && order[j] == b;
        assert i < j || j < i;
      }
    }
    if PairwiseApart(rs) && TiesEmptyFirst(order, rs) {
      forall i | 0 < i < |order|
        ensures End(rs[order[i - 1]]) <= rs[order[i]].offset
      {
        assert Apart(rs[order[i - 1]], rs[order[i]]);
      }
    }
  }

  /** No empty entry shares its offset with a non-empty one. */
  ghost predicate NoEmptyShares(rs: seq<Raw>) {
    forall i, j :: 0 <= i < |rs| && 0 <= j < |rs| && rs[i].storedSize == 0 && rs[j].storedSize > 0 ==>
      rs[i].offset != rs[j].offset
  }

  /** The check passes in every order the sort may choose. */
  ghost predicate EveryOrderFits(rs: seq<Raw>) {
    forall order :: IsOrder(order, rs) ==> ChainFits(order, rs)
  }

  function Inserted(order: seq<nat>, k: nat, n: nat): (all: seq<nat>)
    requires k <= |order|
    ensures |all| == |order| + 1
    ensures forall i :: 0 <= i < |all| ==> all[i] == if i < k then order[i] else if i == k then n else order[i - 1]
  {
    order[..k] + [n] + order[k..]
  }

  lemma InsertedNumbers(order: seq<nat>, k: nat)
    requires k <= |order| && (forall i :: 0 <= i < |order| ==> order[i] < |order|)
    requires forall i, j :: 0 <= i < j < |order| ==> order[i] != order[j]
    requires forall a :: 0 <= a < |order| ==> a in order
    ensures var all := Inserted(order, k, |order|);
            && (forall i :: 0 <= i < |all| ==> all[i] < |all|)
            && (forall i, j :: 0 <= i < j < |all| ==> all[i] != all[j])
            && (forall a :: 0 <= a < |all| ==> a in all)
  {
    var all := Inserted(order, k, |order|);
    hide Inserted;
    forall a: nat | a < |all|
      ensures a in all
    {
      if a < |order| {
        assert a in order;
        var i :| 0 <= i < |order| && order[i] == a;
        assert all[if i < k then i else i + 1] == a;
      } else {
        assert all[k] == a;
      }
    }
  }

  lemma InsertedSorted(order: seq<nat>, rs: seq<Raw>, k: nat, n: nat)
    requires k <= |order| && n < |rs| && forall i :: 0 <= i < |order| ==> order[i] < |rs|
    requires forall i, j :: 0 <= i < j < |order| ==> rs[order[i]].offset <= rs[order[j]].offset
    requires forall i :: 0 <= i < k ==> rs[order[i]].offset <= rs[n].offset
    requires forall i :: k <= i < |order| ==> rs[n].offset <= rs[order[i]].offset
    ensures var all := Inserted(order, k, n);
            && (forall i :: 0 <= i < |all| ==> all[i] < |rs|)
            && (forall i, j :: 0 <= i < j < |all| ==> rs[all[i]].offset <= rs[all[j]].offset)
  {
    var all := Inserted(order, k, n);
    hide Inserted;
  }

  lemma InsertLast(order: seq<nat>, rs: seq<Raw>, k: nat)
    requires rs != [] && IsOrder(order, rs[..|rs| - 1]) && k <= |order|
    requires forall i :: 0 <= i < k ==> rs[order[i]].offset <= rs[|rs| - 1].offset
    requires forall i :: k <= i < |order| ==> rs[|rs| - 1].offset <= rs[order[i]].offset
    ensures IsOrder(Inserted(order, k, |rs| - 1), rs)
  {
    hide Inserted;
    assert forall i :: 0 <= i < |order| ==> rs[..|rs| - 1][order[i]] == rs[order[i]];
    InsertedNumbers(order, k);
    InsertedSorted(order, rs, k, |rs| - 1);
  }

  /** Where an offset belongs in an order. */
  lemma InsertAt(order: seq<nat>, rs: seq<Raw>, offset: nat) returns (k: nat)
    requires IsOrder(order, rs)
    ensures k <= |order|
    ensures forall i :: 0 <= i < k ==> rs[order[i]].offset <= offset
    ensures forall i :: k <= i < |order| ==> offset <= rs[order[i]].offset
  {
    k := 0;
    while k < |order| && rs[order[k]].offset <= offset
      invariant 0 <= k <= |order|
      invariant forall i :: 0 <= i < k ==> rs[order[i]].offset <= offset
    {
      k := k + 1;
    }
  }

  /** There is always an order. */
  lemma {:induction false} SomeOrder(rs: seq<Raw>) returns (order: seq<nat>)
    ensures IsOrder(order, rs)
  {
    if rs == [] {
      return [];
    }
    var n := |rs| - 1;
    var front := SomeOrder(rs[..n]);
    var k := InsertAt(front, rs[..n], rs[n].offset);
    InsertLast(front, rs, k);
    order := Inserted(front, k, n);
  }

  /** Entries with equal offsets may trade places. */
  lemma TradePlaces(order: seq<nat>, rs: seq<Raw>, i: nat, j: nat) returns (other: seq<nat>)
    requires IsOrder(order, rs) && i < j < |order| && rs[order[i]].offset == rs[order[j]].offset
    ensures IsOrder(other, rs) && other[i] == order[j] && other[j] == order[i]
  {
    other := order[i := order[j]][j := order[i]];
    forall a: nat | a < |rs|
      ensures a in other
    {
      assert a in order;
      var k :| 0 <= k < |order| && order[k] == a;
      assert other[if k == i then j else if k == j then i else k] == a;
    }
  }

  lemma ChainExcludesSharing(order: seq<nat>, rs: seq<Raw>, a: nat, b: nat)
    requires EveryOrderFits(rs) && IsOrder(order, rs) && a < |rs| && b < |rs|
    requires rs[a].storedSize == 0 && rs[b].storedSize > 0
    ensures rs[a].offset != rs[b].offset
  {
    if rs[a].offset == rs[b].offset {
      assert a in order && b in order;
      var i :| 0 <= i < |order| && order[i] == a;
      var j :| 0 <= j < |order| && order[j] == b;
      var other := order;
      if i < j {
        other := TradePlaces(order, rs, i, j);
      }
      ChainMeans(other, rs);
    }
  }

  /** Acceptance never hangs on the sort exactly when the ranges are disjoint and no empty one shares an offset. */
  lemma EveryOrderMeans(rs: seq<Raw>)
    ensures EveryOrderFits(rs) <==> PairwiseApart(rs) && NoEmptyShares(rs)
  {
    if EveryOrderFits(rs) {
      var order := SomeOrder(rs);
      ChainMeans(order, rs);
      forall a, b | 0 <= a < |rs| && 0 <= b < |rs| && rs[a].storedSize == 0 && rs[b].storedSize > 0
        ensures rs[a].offset != rs[b].offset
      {
        ChainExcludesSharing(order, rs, a, b);
      }
    }
    if PairwiseApart(rs) && NoEmptyShares(rs) {
      forall order | IsOrder(order, rs)
        ensures ChainFits(order, rs)
      {
        DisjointPasses(order, rs);
      }
    }
  }

  lemma DisjointPasses(order: seq<nat>, rs: seq<Raw>)
    requires IsOrder(order, rs) && PairwiseApart(rs) && NoEmptyShares(rs)
    ensures ChainFits(order, rs)
  {
    forall i, j | 0 <= i < j < |order| && rs[order[i]].offset == rs[order[j]].offset
      ensures rs[order[i]].storedSize == 0
    {
      assert Apart(rs[order[i]], rs[order[j]]);
    }
    ChainMeans(order, rs);
  }

  /** The exception is real: the same two ranges pass in one order and fail in the other. */
  lemma TieDecides(r: Raw, e: Raw)
    requires r.offset == e.offset && e.storedSize == 0 && r.storedSize > 0
    ensures ChainFits([1, 0], [r, e]) && !ChainFits([0, 1], [r, e])
  {
    var rs := [r, e];
    assert IsOrder([1, 0], rs) && IsOrder([0, 1], rs);
    assert End(rs[[0, 1][1 - 1]]) > rs[[0, 1][1]].offset;
  }

  // ---------------------------------------------------------------------------------------------
  // The parser
  // ---------------------------------------------------------------------------------------------

  function Entries(rs: seq<Raw>): (es: seq<Entry>)
    ensures |es| == |rs| && forall i :: 0 <= i < |rs| ==> es[i] == ToEntry(rs[i])
  {
    seq(|rs|, i requires 0 <= i < |rs| => ToEntry(rs[i]))
  }

  /** The index lists exactly these entries, and they are acceptable to a sort that ordered them so. */
  ghost predicate Accepts(s: seq<u8>, f: Footer, order: seq<nat>, rs: seq<Raw>) {
    && Checksum(s) == f.indexCrc && Parsed(s, f, 0, f.fileCount, 0, rs)
    && Distinct(Names(rs)) && PairwiseApart(rs)
    && IsOrder(order, rs) && TiesEmptyFirst(order, rs)
  }

  /** The entries read so far before what the rest of the loop will read. */
  function Before(parsed: seq<Raw>, rest: (Status, seq<Raw>)): (Status, seq<Raw>) {
    (rest.0, if rest.0 == Ok then parsed + rest.1 else [])
  }

  lemma ParseStep(s: seq<u8>, f: Footer, cursor: nat, n: nat, total: u64, parsed: seq<Raw>)
    requires cursor <= |s| && total <= MAX_TOTAL_BYTES && n > 0
    ensures var all := Before(parsed, ParseFrom(s, f, cursor, n, total));
            if !Readable(s, cursor) then all == (BadIndex, [])
            else
              var r := ReadRaw(s, cursor);
              var check := CheckEntry(r, f, total);
              if check != Ok then all == (check, [])
              else
                && cursor + EntrySize(r) <= |s| && Plus(total, r.size) <= MAX_TOTAL_BYTES
                && all == Before(parsed + [r], ParseFrom(s, f, cursor + EntrySize(r), n - 1, Plus(total, r.size)))
  {
    hide CheckEntry, Readable, ReadRaw, EntryOk;
    if Readable(s, cursor) && CheckEntry(ReadRaw(s, cursor), f, total) == Ok {
      var r := ReadRaw(s, cursor);
      CheckEntryMeans(r, f, total);
      ReadEncodes(s, cursor);
      var rest := ParseFrom(s, f, cursor + EntrySize(r), n - 1, Plus(total, r.size)).1;
      assert parsed + ([r] + rest) == (parsed + [r]) + rest;
    }
  }

  lemma BeforeEnds(parsed: seq<Raw>, rest: (Status, seq<Raw>))
    ensures rest.0 == Ok || rest.1 == [] ==> Before([], rest) == rest
    ensures Before(parsed, (Ok, [])) == (Ok, parsed)
  {
    assert [] + rest.1 == rest.1 && parsed + [] == parsed;
  }

  lemma ParseEnd(s: seq<u8>, f: Footer, cursor: nat, total: u64)
    requires cursor <= |s|
    ensures ParseFrom(s, f, cursor, 0, total) == (if cursor != |s| || total != f.totalSize then BadIndex else Ok, [])
  {
  }

  method ParseEntries(s: seq<u8>, f: Footer) returns (status: Status, parsed: seq<Raw>)
    ensures (status, parsed) == ParseFrom(s, f, 0, f.fileCount, 0)
  {
    hide CheckEntry, Readable, ReadRaw, EntrySize, ParseFrom, Plus;
    var cursor: nat, total: u64, index: nat := 0, 0, 0;
    parsed := [];
    BeforeEnds([], ParseFrom(s, f, 0, f.fileCount, 0));
    while index < f.fileCount
      invariant 0 <= index <= f.fileCount && cursor <= |s| && total <= MAX_TOTAL_BYTES
      invariant ParseFrom(s, f, 0, f.fileCount, 0)
                == Before(parsed, ParseFrom(s, f, cursor, f.fileCount - index, total))
    {
      ParseStep(s, f, cursor, f.fileCount - index, total, parsed);
      if !Readable(s, cursor) {
        return BadIndex, [];
      }
      var r := ReadRaw(s, cursor);
      var check := CheckEntry(r, f, total);
      if check != Ok {
        return check, [];
      }
      cursor, total, index := cursor + EntrySize(r), Plus(total, r.size), index + 1;
      parsed := parsed + [r];
    }
    ParseEnd(s, f, cursor, total);
    BeforeEnds(parsed, (Ok, []));
    if cursor != |s| || total != f.totalSize {
      return BadIndex, [];
    }
    return Ok, parsed;
  }

  /** What the two sorts make of the entries: the names in order, and an order of the ranges. */
  type Sorter = seq<Raw> -> (seq<Text>, seq<nat>)

  /** The names end up sorted and the ranges ordered; how ties come out is left open. */
  ghost predicate Sorts(sort: Sorter) {
    forall rs :: SortedBy(Names(rs), sort(rs).0) && IsOrder(sort(rs).1, rs)
  }

  method ParseIndex(s: seq<u8>, f: Footer, sort: Sorter) returns (status: Status, entries: seq<Entry>)
    requires f.totalSize <= MAX_TOTAL_BYTES && Sorts(sort)
    ensures status == Ok ==> exists rs :: Accepts(s, f, sort(rs).1, rs) && entries == Entries(rs)
    ensures (exists rs :: Accepts(s, f, sort(rs).1, rs)) ==> status == Ok
    // which complaint comes first
    ensures var (parsing, rs) := ParseFrom(s, f, 0, f.fileCount, 0);
            status == if Checksum(s) != f.indexCrc then BadIndexChecksum
                      else if parsing != Ok then parsing
                      else if !Distinct(Names(rs)) then DuplicatePath
                      else if !ChainFits(sort(rs).1, rs) then BadFileRange
                      else Ok
  {
    hide ParseFrom, Checksum;
    entries := [];
    if Checksum(s) != f.indexCrc {
      return BadIndexChecksum, [];
    }
    var parsed;
    status, parsed := ParseEntries(s, f);
    AcceptsOnlyParsed(s, f);
    if status != Ok {
      return;
    }
    var (sorted, order) := sort(parsed);
    ParseSound(s, f, 0, f.fileCount, 0);
    assert s[0..] == s;
    NeighboursSuffice(Names(parsed), sorted);
    ChainMeans(order, parsed);
    var twice := HasNeighbours(sorted);
    if twice {
      return DuplicatePath, [];
    }
    var fits := RangesFit(parsed, order, f);
    if !fits {
      return BadFileRange, [];
    }
    entries := Entries(parsed);
    assert Accepts(s, f, order, parsed);
    return Ok, entries;
  }

  lemma AcceptsOnlyParsed(s: seq<u8>, f: Footer)
    requires f.totalSize <= MAX_TOTAL_BYTES
    ensures forall rs, order :: Accepts(s, f, order, rs) ==> ParseFrom(s, f, 0, f.fileCount, 0) == (Ok, rs)
  {
    forall rs, order | Accepts(s, f, order, rs)
      ensures ParseFrom(s, f, 0, f.fileCount, 0) == (Ok, rs)
    {
      ParseComplete(s, f, 0, f.fileCount, 0, rs);
    }
  }

  method HasNeighbours(sorted: seq<Text>) returns (found: bool)
    ensures found <==> exists i :: 0 < i < |sorted| && sorted[i - 1] == sorted[i]
  {
    var i := 1;
    while i < |sorted|
      invariant 1 <= i && forall k :: 0 < k < i && k < |sorted| ==> sorted[k - 1] != sorted[k]
    {
      if sorted[i - 1] == sorted[i] {
        return true;
      }
      i := i + 1;
    }
    return false;
  }

  /** The sums of the comparison do not wrap: both ends lie in the payload area. */
  method RangesFit(rs: seq<Raw>, order: seq<nat>, f: Footer) returns (fits: bool)
    requires IsOrder(order, rs) && forall i :: 0 <= i < |rs| ==> EntryOk(rs[i], f)
    ensures fits <==> ChainFits(order, rs)
  {
    hide SafeRelative;
    var i := 1;
    while i < |order|
      invariant 1 <= i && forall k :: 0 < k < i && k < |order| ==> End(rs[order[k - 1]]) <= rs[order[k]].offset
    {
      var previous := rs[order[i - 1]];
      assert EntryOk(previous, f) && End(previous) < TWO64;
      if Plus(previous.offset, previous.storedSize) > rs[order[i]].offset {
        assert End(rs[order[i - 1]]) > rs[order[i]].offset;
        return false;
      }
      i := i + 1;
    }
    return true;
  }
}
