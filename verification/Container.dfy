/**
 The setup container: files packed block by block behind the stub, and the reader that gets them out again. The
 compressor is abstract; all that is asked of it is that the decompressor undoes it.
 */
module Container {
  import opened Utf8
  import opened SafePath
  import opened LittleEndian
  import opened PayloadIndex
  import Crc32

  type Decompressor = (seq<u8>, nat) -> Option<seq<u8>>

  type Compressor = seq<u8> -> Option<seq<u8>>

  function Block(size: nat): (raw: nat)
    ensures raw <= size && raw <= BLOCK_SIZE && (size > 0 ==> raw > 0)
    ensures size >= 1024 * 1024 ==> raw == 1024 * 1024
  {
    if size < BLOCK_SIZE then size else BLOCK_SIZE
  }

  /** Validates one block's framing. */
  predicate ValidBlockLength(storedLength: nat, rawSize: nat) {
    storedLength != 0 && storedLength <= rawSize
  }

  function Behind(head: seq<u8>, tail: Option<seq<u8>>): Option<seq<u8>> {
    if tail.None? then None else Some(head + tail.value)
  }

  /** The content of one framed block and the length of its frame, if the bytes start with one. */
  function FirstBlock(bytes: seq<u8>, raw: nat, d: Decompressor): Option<(seq<u8>, nat)> {
    if |bytes| < 4 then None
    else
      var n := ReadLe(bytes, 0, 4);
      if !ValidBlockLength(n, raw) || 4 + n > |bytes| then None
      else if n == raw then Some((bytes[4..4 + n], 4 + n))
      else
        var out := d(bytes[4..4 + n], raw);
        if out.None? || |out.value| != raw then None else Some((out.value, 4 + n))
  }

  /** The content of `size` bytes that a stored range holds, if it holds exactly that. */
  function Decode(storage: Storage, bytes: seq<u8>, size: nat, d: Decompressor): (c: Option<seq<u8>>)
    ensures c.Some? ==> |c.value| == size
    decreases size
  {
    if size == 0 then
      if bytes == [] then Some([]) else None
    else
      var raw := Block(size);
      if storage == Store then
        if |bytes| < raw then None else Behind(bytes[..raw], Decode(storage, bytes[raw..], size - raw, d))
      else
        var first := FirstBlock(bytes, raw, d);
        if first.None? then None
        else
          FirstBlockFits(bytes, raw, d);
          Behind(first.value.0, Decode(storage, bytes[first.value.1..], size - raw, d))
  }

  lemma FirstBlockFits(bytes: seq<u8>, raw: nat, d: Decompressor)
    ensures var f := FirstBlock(bytes, raw, d);
            f.Some? ==> |f.value.0| == raw && 4 < f.value.1 <= |bytes| && f.value.1 <= raw + 4
  {
  }

  // ---------------------------------------------------------------------------------------------
  // The reader
  // ---------------------------------------------------------------------------------------------

  function ToBytes(s: seq<u8>): (b: seq<Crc32.byte>)
    ensures |b| == |s|
  {
    seq(|s|, i requires 0 <= i < |s| => s[i] as Crc32.byte)
  }

  lemma ToBytesConcat(a: seq<u8>, b: seq<u8>)
    ensures ToBytes(a + b) == ToBytes(a) + ToBytes(b)
  {
  }

  /** The range holds content of the entry's size with the entry's checksum. */
  predicate HoldsContent(entry: Entry, range: seq<u8>, d: Decompressor) {
    var content := Decode(entry.storage, range, entry.size, d);
    content.Some? && Checksum(content.value) == entry.crc
  }

  lemma BehindNothing(c: Option<seq<u8>>, done: seq<u8>)
    ensures Behind([], c) == c && Behind(done, Some([])) == Some(done) && Behind(done, None) == None
  {
    if c.Some? {
      assert [] + c.value == c.value;
    }
    assert done + [] == done;
  }

  lemma DecodeEnd(storage: Storage, bytes: seq<u8>, d: Decompressor)
    ensures Decode(storage, bytes, 0, d) == if bytes == [] then Some([]) else None
  {
  }

  /** The index is found where the footer says, and lists the entries to a sort that ordered them so. */
  ghost predicate Lists(file: seq<u8>, f: Footer, order: seq<nat>, rs: seq<Raw>) {
    && FOOTER_SIZE <= |file| < TWO64 && IsFooter(file[|file| - FOOTER_SIZE..], f) && FooterInBounds(f, |file|)
    && Accepts(file[f.indexOffset..f.indexOffset + f.indexSize], f, order, rs)
  }

  ghost predicate Listed(file: seq<u8>, sort: Sorter) {
    exists f, rs :: Lists(file, f, sort(rs).1, rs)
  }

  lemma IndexFits(tail: seq<u8>, fileSize: u64)
    requires |tail| == FOOTER_SIZE && ParseFooter(tail, fileSize).0 == Ok
    ensures var f := ParseFooter(tail, fileSize).1;
            f.indexOffset + f.indexSize <= fileSize && f.totalSize <= MAX_TOTAL_BYTES
  {
    AcceptedFooter(tail, fileSize);
    hide ParseFooter;
  }

  lemma FooterDecides(file: seq<u8>, sort: Sorter)
    requires |file| < FOOTER_SIZE || (|file| < TWO64 && ParseFooter(file[|file| - FOOTER_SIZE..], |file|).0 != Ok)
    ensures !Listed(file, sort)
  {
    hide ParseFooter, Accepts, FooterInBounds, IsFooter;
    if f, rs :| Lists(file, f, sort(rs).1, rs) {
      ParseFooterMeans(file[|file| - FOOTER_SIZE..], |file|, f);
    }
  }

  ghost predicate AcceptedBy(index: seq<u8>, f: Footer, sort: Sorter) {
    exists rs :: Accepts(index, f, sort(rs).1, rs)
  }

  ghost predicate ReadAs(file: seq<u8>, f: Footer, sort: Sorter, entries: seq<Entry>) {
    exists rs :: Lists(file, f, sort(rs).1, rs) && entries == Entries(rs)
  }

  lemma IndexDecides(file: seq<u8>, sort: Sorter, f: Footer)
    requires FOOTER_SIZE <= |file| < TWO64 && ParseFooter(file[|file| - FOOTER_SIZE..], |file|) == (Ok, f)
    requires f.indexOffset + f.indexSize <= |file|
    ensures Listed(file, sort) ==> AcceptedBy(file[f.indexOffset..f.indexOffset + f.indexSize], f, sort)
  {
    hide ParseFooter, Accepts, IsFooter, FooterInBounds;
    if Listed(file, sort) {
      var g, rs :| Lists(file, g, sort(rs).1, rs);
      ParseFooterMeans(file[|file| - FOOTER_SIZE..], |file|, g);
      assert Accepts(file[f.indexOffset..f.indexOffset + f.indexSize], f, sort(rs).1, rs);
    }
  }

  lemma IndexRead(file: seq<u8>, sort: Sorter, f: Footer, entries: seq<Entry>)
    requires FOOTER_SIZE <= |file| < TWO64 && ParseFooter(file[|file| - FOOTER_SIZE..], |file|) == (Ok, f)
    requires f.indexOffset + f.indexSize <= |file|
    requires exists rs ::
               Accepts(file[f.indexOffset..f.indexOffset + f.indexSize], f, sort(rs).1, rs) && entries == Entries(rs)
    ensures ReadAs(file, f, sort, entries)
  {
    hide ParseFooter, Accepts, IsFooter, FooterInBounds;
    var rs :| Accepts(file[f.indexOffset..f.indexOffset + f.indexSize], f, sort(rs).1, rs) && entries == Entries(rs);
    ParseFooterMeans(file[|file| - FOOTER_SIZE..], |file|, f);
    assert Lists(file, f, sort(rs).1, rs);
  }

  /** The byte positions from lo up to hi. */
  ghost function Span(lo: nat, hi: nat): set<nat>
    decreases hi - lo
  {
    if lo >= hi then {} else {lo} + Span(lo + 1, hi)
  }

  lemma {:induction false} SpanMeans(lo: nat, hi: nat, i: nat)
    ensures i in Span(lo, hi) <==> lo <= i < hi
    decreases hi - lo
  {
    if lo < hi {
      SpanMeans(lo + 1, hi, i);
    }
  }

  lemma {:induction false} SpanJoin(read: set<nat>, a: nat, b: nat, c: nat)
    requires a <= b <= c
    ensures read + Span(a, b) + Span(b, c) == read + Span(a, c) && Span(a, a) == {}
    decreases b - a
  {
    if a < b {
      SpanJoin(read + {a}, a + 1, b, c);
      assert read + Span(a, b) + Span(b, c) == read + {a} + Span(a + 1, b) + Span(b, c);
    }
  }

  class PayloadReader {
    const file: seq<u8>
    const decompress: Decompressor
    const granted: nat -> bool
    var position: nat
    var asked: nat
    ghost var read: set<nat>

    constructor (file: seq<u8>, decompress: Decompressor, granted: nat -> bool)
      ensures this.file == file && this.decompress == decompress && this.granted == granted && asked == 0 && read == {}
    {
      this.file, this.decompress, this.granted, position, asked, read := file, decompress, granted, 0, 0, {};
    }

    /** Whether the operating system goes along with the next request. */
    method Ask() returns (yes: bool)
      modifies `asked
      ensures yes == granted(old(asked)) && asked == old(asked) + 1
    {
      yes := granted(asked);
      asked := asked + 1;
    }

    method ReadExact(n: nat) returns (r: Option<seq<u8>>)
      modifies `position, `asked, `read
      ensures asked == old(asked) + 1
      ensures r == if granted(old(asked)) && old(position) + n <= |file|
                   then Some(file[old(position)..old(position) + n]) else None
      ensures position == if r.Some? then old(position) + n else old(position)
      ensures read == old(read) + Span(old(position), position)
    {
      var yes := Ask();
      if !yes || position + n > |file| {
        SpanJoin(read, position, position, position);
        return None;
      }
      hide Span;
      r := Some(file[position..position + n]);
      read := read + Span(position, position + n);
      position := position + n;
    }

    /** One framed block: its content, or why there is none. `consumed`: stored bytes read before it. */
    method ReadFrame(entry: Entry, consumed: nat, raw: nat) returns (status: Status, content: seq<u8>, now: nat)
      requires consumed <= entry.storedSize && entry.offset + entry.storedSize <= |file| && raw > 0
      requires position == entry.offset + consumed
      modifies `position, `asked, `read
      ensures read == old(read) + Span(old(position), position)
      ensures asked > old(asked) && old(position) <= position <= entry.offset + entry.storedSize + 4
      ensures (if Granted(old(asked)) then status in {Ok, BadBlock, IoError} else status == IoError)
      ensures status == Ok ==> position == entry.offset + now && consumed < now <= entry.storedSize && |content| == raw
      ensures var first := FirstBlock(file[entry.offset + consumed..entry.offset + entry.storedSize], raw, decompress);
              if status == Ok then first == Some((content, now - consumed))
              else first.None? || !Granted(old(asked))
    {
      hide ReadLe, Span;
      SpanJoin(read, position, position, position);
      ghost var lo, hi := entry.offset + consumed, entry.offset + entry.storedSize;
      ghost var rest := file[lo..hi];
      var header := ReadExact(4);
      if header.None? {
        return IoError, [], consumed;
      }
      var n := ReadLe(header.value, 0, 4);
      if |rest| >= 4 {
        SubSlice(file, lo, hi, 0, 4);
        ReadPrefix(rest, 4);
      }
      if !ValidBlockLength(n, raw) || consumed + 4 + n > entry.storedSize {
        return BadBlock, [], consumed;
      }
      var stored := ReadExact(n);
      if stored.None? {
        SpanJoin(old(read), old(position), position, position);
        return IoError, [], consumed;
      }
      SpanJoin(old(read), old(position), old(position) + 4, position);
      SubSlice(file, lo, hi, 4, 4 + n);
      if n == raw {
        return Ok, stored.value, consumed + 4 + n;
      }
      var out := decompress(stored.value, raw);
      if out.None? || |out.value| != raw {
        return BadBlock, [], consumed;
      }
      return Ok, out.value, consumed + 4 + n;
    }

    /** One block of either storage. */
    method ReadBlock(entry: Entry, consumed: nat, raw: nat) returns (status: Status, content: seq<u8>, now: nat)
      requires consumed <= entry.storedSize && entry.offset + entry.storedSize <= |file| && raw > 0
      requires position == entry.offset + consumed
      requires entry.storage == Store ==> consumed + raw <= entry.storedSize
      modifies `position, `asked, `read
      ensures asked > old(asked) && read == old(read) + Span(old(position), position)
      ensures old(position) <= position <= entry.offset + entry.storedSize + 4
      ensures (if Granted(old(asked)) then status in {Ok, BadBlock, IoError} else status == IoError)
      ensures status == Ok ==> position == entry.offset + now && consumed < now <= entry.storedSize && |content| == raw
      ensures status == Ok && entry.storage == Store ==>
                content == file[old(position)..position] && now == consumed + raw
      ensures var rest := file[entry.offset + consumed..entry.offset + entry.storedSize];
              entry.storage == Lzms ==>
                if status == Ok then FirstBlock(rest, raw, decompress) == Some((content, now - consumed))
                else FirstBlock(rest, raw, decompress).None? || !Granted(old(asked))
      ensures entry.storage == Store && status != Ok ==> !Granted(old(asked))
    {
      hide FirstBlock, Span;
      if entry.storage == Lzms {
        status, content, now := ReadFrame(entry, consumed, raw);
        return;
      }
      var r := ReadExact(raw);
      if r.None? {
        return IoError, [], consumed;
      }
      return Ok, r.value, consumed + raw;
    }

    /** What is left to decode after a block was delivered. */
    lemma NextBlock(entry: Entry, consumed: nat, done: seq<u8>, content: seq<u8>, now: nat)
      requires entry.offset + entry.storedSize <= |file| && |done| < entry.size
      requires consumed < now <= entry.storedSize
      requires entry.storage == Store ==>
                 content == file[entry.offset + consumed..entry.offset + now]
                 && now == consumed + Block(entry.size - |done|)
      requires entry.storage == Lzms ==>
                 FirstBlock(file[entry.offset + consumed..entry.offset + entry.storedSize], Block(entry.size - |done|),
                            decompress) == Some((content, now - consumed))
      ensures var range, left := file[entry.offset..entry.offset + entry.storedSize], entry.size - |done|;
              Behind(done, Decode(entry.storage, range[consumed..], left, decompress))
              == Behind(done + content, Decode(entry.storage, range[now..], left - Block(left), decompress))
    {
      var lo, hi := entry.offset, entry.offset + entry.storedSize;
      hide Decode, Block, Behind, FirstBlock;
      DecodeStep(entry.storage, file[lo..hi], entry.size - |done|, consumed, decompress, done);
      SubSlice(file, lo, hi, consumed, entry.storedSize);
      if entry.storage == Store {
        SubSlice(file, lo, hi, consumed, now);
        SubSlice(file[lo..hi], consumed, entry.storedSize, 0, now - consumed);
      }
    }

    /** Every request since was granted. */
    predicate Granted(since: nat)
      reads this
    {
      forall k :: since <= k < asked ==> granted(k)
    }

    /** Finds the footer at the end of the file and the index it names. */
    method Open(sort: Sorter) returns (status: Status, footer: Footer, entries: seq<Entry>)
      requires Sorts(sort) && |file| < TWO64
      modifies `position, `asked, `read
      ensures asked >= old(asked)
      ensures status == Ok ==> ReadAs(file, footer, sort, entries)
      ensures Granted(old(asked)) && Listed(file, sort) ==> status == Ok
      // why it fails
      ensures |file| < FOOTER_SIZE ==> status == TooSmall
      ensures !Granted(old(asked)) ==> status == IoError
      ensures |file| >= FOOTER_SIZE && Granted(old(asked)) ==>
                var judged := ParseFooter(file[|file| - FOOTER_SIZE..], |file|).0;
                judged == Ok || status == judged
    {
      hide ParseFooter, Accepts, Sorts, Span, Lists, Listed, FooterInBounds, AcceptedBy, ReadAs;
      footer, entries := Footer(0, 0, 0, 0, 0, 0), [];
      if |file| < FOOTER_SIZE {
        FooterDecides(file, sort);
        return TooSmall, footer, [];
      }
      position := |file| - FOOTER_SIZE;
      var tail := ReadExact(FOOTER_SIZE);
      if tail.None? {
        return IoError, footer, [];
      }
      assert tail.value == file[|file| - FOOTER_SIZE..];
      var parsed := ParseFooter(tail.value, |file|);
      footer := parsed.1;
      if parsed.0 != Ok {
        FooterDecides(file, sort);
        return parsed.0, footer, [];
      }
      IndexFits(tail.value, |file|);
      IndexDecides(file, sort, footer);
      status, entries := OpenIndex(footer, sort);
    }

    method OpenIndex(footer: Footer, sort: Sorter) returns (status: Status, entries: seq<Entry>)
      requires Sorts(sort) && FOOTER_SIZE <= |file| < TWO64
      requires ParseFooter(file[|file| - FOOTER_SIZE..], |file|) == (Ok, footer)
      requires footer.indexOffset + footer.indexSize <= |file| && footer.totalSize <= MAX_TOTAL_BYTES
      modifies `position, `asked, `read
      ensures asked == old(asked) + 1 && (!granted(old(asked)) ==> status == IoError)
      ensures status == Ok ==> ReadAs(file, footer, sort, entries)
      ensures granted(old(asked))
              && AcceptedBy(file[footer.indexOffset..footer.indexOffset + footer.indexSize], footer, sort) ==>
                status == Ok
    {
      hide ParseFooter, Accepts, Sorts, Span, ReadAs, ParseFrom, Distinct, ChainFits, Checksum;
      position := footer.indexOffset;
      var index := ReadExact(footer.indexSize);
      if index.None? {
        return IoError, [];
      }
      status, entries := ParseIndex(index.value, footer, sort);
      if status == Ok {
        IndexRead(file, sort, footer, entries);
      }
    }

    /**
     Delivers a file's content to the sink, block by block. It succeeds exactly when the stored range holds content
     of the entry's size and checksum and nothing is refused; then that content was delivered, and exactly the
     entry's range was read. It never reads more than a block header past the range.
     */
    method DecodeFile(entry: Entry) returns (status: Status, delivered: seq<u8>)
      requires entry.offset + entry.storedSize <= |file|
      requires entry.storage == Store ==> entry.storedSize == entry.size
      modifies `position, `asked, `read
      ensures entry.offset <= position <= entry.offset + entry.storedSize + 4
      ensures asked >= old(asked) && read == old(read) + Span(entry.offset, position)
      ensures var range := file[entry.offset..entry.offset + entry.storedSize];
              && (status == Ok ==>
                    && Decode(entry.storage, range, entry.size, decompress) == Some(delivered)
                    && Checksum(delivered) == entry.crc && position == entry.offset + entry.storedSize)
              && (Granted(old(asked)) && HoldsContent(entry, range, decompress) ==> status == Ok)
      // why it fails
      ensures !Granted(old(asked)) ==> status == IoError
      ensures var area := file[entry.offset..entry.offset + entry.storedSize];
              var content := Decode(entry.storage, area, entry.size, decompress);
              Granted(old(asked)) ==>
                if content.None? then status in {BadBlock, IoError}
                else status == if Checksum(content.value) == entry.crc then Ok else BadFileChecksum
    {
      hide Decode, Block, Behind, FirstBlock, Crc32.Update, ToBytes, Span;
      ghost var range := file[entry.offset..entry.offset + entry.storedSize];
      position := entry.offset;
      SpanJoin(read, position, position, position);
      var crc: Crc32.word := 0;
      var consumed: nat := 0;
      delivered := [];
      RunNothing();
      assert range[0..] == range;
      ghost var all := Decode(entry.storage, range, entry.size, decompress);
      BehindNothing(all, []);
      while |delivered| < entry.size
        invariant |delivered| <= entry.size && consumed <= entry.storedSize && position == entry.offset + consumed
        invariant asked >= old(asked) && Granted(old(asked)) && read == old(read) + Span(entry.offset, position)
        invariant entry.storage == Store ==> consumed == |delivered|
        invariant all == Behind(delivered, Decode(entry.storage, range[consumed..], entry.size - |delivered|,
                                                  decompress))
        invariant crc == Crc32.Update(0, ToBytes(delivered))
      {
        var raw := Block(entry.size - |delivered|);
        var content, now;
        ghost var from := position;
        status, content, now := ReadBlock(entry, consumed, raw);
        SpanJoin(old(read), entry.offset, from, position);
        if status != Ok {
          DecodeStep(entry.storage, range, entry.size - |delivered|, consumed, decompress, delivered);
          SubSlice(file, entry.offset, entry.offset + entry.storedSize, consumed, entry.storedSize);
          return;
        }
        NextBlock(entry, consumed, delivered, content, now);
        ToBytesConcat(delivered, content);
        Crc32.UpdateConcat(0, ToBytes(delivered), ToBytes(content));
        crc := Crc32.Update(crc, ToBytes(content));
        consumed := now;
        delivered := delivered + content;
        var accepted := Ask();
        if !accepted {
          return IoError, delivered;
        }
      }
      DecodeEnd(entry.storage, range[consumed..], decompress);
      BehindNothing(Some([]), delivered);
      if consumed != entry.storedSize {
        return BadBlock, delivered;
      }
      ChecksumIs(delivered, crc);
      status := if crc as nat == entry.crc then Ok else BadFileChecksum;
    }

    lemma GrantedLater(since: nat, later: nat)
      requires since <= later
      ensures Granted(since) ==> Granted(later)
    {
    }
  }

  lemma ChecksumIs(s: seq<u8>, crc: Crc32.word)
    requires crc == Crc32.Update(0, ToBytes(s))
    ensures Checksum(s) == crc as nat
  {
    assert ToBytes(s) == seq(|s|, i requires 0 <= i < |s| => s[i] as Crc32.byte);
    hide Crc32.Update;
  }

  lemma RunNothing()
    ensures Crc32.Update(0, ToBytes([])) == 0
  {
    Crc32.NotNot(0);
  }

  /** One round of the decoder's loop. */
  lemma DecodeStep(storage: Storage, range: seq<u8>, left: nat, consumed: nat, d: Decompressor, done: seq<u8>)
    requires consumed <= |range| && left > 0
    ensures var raw, rest := Block(left), range[consumed..];
            var all := Behind(done, Decode(storage, rest, left, d));
            && (storage == Store ==>
                  if |rest| < raw then all == None
                  else all == Behind(done + rest[..raw], Decode(storage, range[consumed + raw..], left - raw, d)))
            && (storage == Lzms ==>
                  var first := FirstBlock(rest, raw, d);
                  if first.None? then all == None
                  else
                    && |first.value.0| == raw && consumed + first.value.1 <= |range|
                    && all == Behind(done + first.value.0,
                                     Decode(storage, range[consumed + first.value.1..], left - raw, d)))
  {
    var raw, rest := Block(left), range[consumed..];
    FirstBlockFits(rest, raw, d);
    hide FirstBlock, Block;
    if storage == Store {
      if |rest| >= raw {
        assert rest[raw..] == range[consumed + raw..];
        BehindBehind(done, rest[..raw], Decode(storage, rest[raw..], left - raw, d));
      }
    } else {
      var first := FirstBlock(rest, raw, d);
      if first.Some? {
        assert rest[first.value.1..] == range[consumed + first.value.1..];
        BehindBehind(done, first.value.0, Decode(storage, rest[first.value.1..], left - raw, d));
      }
    }
  }

  lemma BehindBehind(a: seq<u8>, b: seq<u8>, c: Option<seq<u8>>)
    ensures Behind(a, Behind(b, c)) == Behind(a + b, c)
  {
    if c.Some? {
      assert a + (b + c.value) == (a + b) + c.value;
    }
  }

  lemma ReadPrefix(s: seq<u8>, n: nat)
    requires n <= |s|
    ensures ReadLe(s[..n], 0, n) == ReadLe(s, 0, n)
  {
    ReadLocal(s[..n], s, 0, n);
  }

  lemma {:induction false} ReadLocal(s: seq<u8>, t: seq<u8>, at: nat, n: nat)
    requires at + n <= |s| && at + n <= |t| && forall i :: at <= i < at + n ==> s[i] == t[i]
    ensures ReadLe(s, at, n) == ReadLe(t, at, n)
    decreases n
  {
    if n > 0 {
      ReadLocal(s, t, at + 1, n - 1);
    }
  }

  // ---------------------------------------------------------------------------------------------
  // The packer
  // ---------------------------------------------------------------------------------------------

  /** The decompressor undoes the compressor, which never compresses to nothing. */
  ghost predicate Inverse(c: Compressor, d: Decompressor) {
    forall b :: c(b).Some? ==> |c(b).value| > 0 && d(c(b).value, |b|) == Some(b)
  }

  /** A block is stored raw unless compressing makes it smaller. */
  function StoredBlock(b: seq<u8>, c: Compressor): (st: seq<u8>)
    ensures |st| <= |b|
  {
    var packed := c(b);
    if packed.Some? && |packed.value| < |b| then packed.value else b
  }

  function Frames(content: seq<u8>, c: Compressor): seq<u8>
    decreases |content|
  {
    if content == [] then []
    else
      var raw := Block(|content|);
      var st := StoredBlock(content[..raw], c);
      WriteLe(|st|, 4) + st + Frames(content[raw..], c)
  }

  /** A file as a whole is stored raw unless its frames are smaller. */
  function EncodeFile(content: seq<u8>, c: Compressor): (Storage, seq<u8>) {
    var frames := Frames(content, c);
    if content == [] || |frames| >= |content| then (Store, content) else (Lzms, frames)
  }

  /** Neither a block nor a file takes more room than any way of storing it. */
  lemma StoredSmallest(content: seq<u8>, c: Compressor)
    ensures |EncodeFile(content, c).1| <= |content| && |EncodeFile(content, c).1| <= |Frames(content, c)|
    ensures c(content).Some? ==> |StoredBlock(content, c)| <= |c(content).value|
  {
  }

  lemma FrameParts(head: seq<u8>, st: seq<u8>, rest: seq<u8>)
    requires |head| == 4
    ensures var bytes := head + st + rest; bytes[0..4] == head && bytes[4..4 + |st|] == st && bytes[4 + |st|..] == rest
  {
  }

  lemma FirstFrame(b: seq<u8>, rest: seq<u8>, c: Compressor, d: Decompressor)
    requires Inverse(c, d) && 0 < |b| <= BLOCK_SIZE
    ensures var st := StoredBlock(b, c);
            FirstBlock(WriteLe(|st|, 4) + st + rest, |b|, d) == Some((b, 4 + |st|))
  {
    var st := StoredBlock(b, c);
    assert c(b).Some? ==> |c(b).value| > 0 && d(c(b).value, |b|) == Some(b);
    Widths();
    hide WriteLe, ReadLe, Pow256, Inverse;
    FrameParts(WriteLe(|st|, 4), st, rest);
    ReadPiece(WriteLe(|st|, 4) + st + rest, 0, |st|, 4);
  }

  lemma {:induction false} FramesDecode(content: seq<u8>, c: Compressor, d: Decompressor)
    requires Inverse(c, d)
    ensures Decode(Lzms, Frames(content, c), |content|, d) == Some(content)
    decreases |content|
  {
    if content != [] {
      var raw := Block(|content|);
      var b := content[..raw];
      var st, rest := StoredBlock(b, c), Frames(content[raw..], c);
      FirstFrame(b, rest, c, d);
      FramesDecode(content[raw..], c, d);
      hide FirstBlock, StoredBlock, WriteLe, Inverse;
      assert Frames(content, c) == WriteLe(|st|, 4) + st + rest;
      FrameParts(WriteLe(|st|, 4), st, rest);
      assert content == b + content[raw..];
    }
  }

  lemma {:induction false} StoreDecode(content: seq<u8>, d: Decompressor)
    ensures Decode(Store, content, |content|, d) == Some(content)
    decreases |content|
  {
    if content != [] {
      var raw := Block(|content|);
      StoreDecode(content[raw..], d);
      assert content == content[..raw] + content[raw..];
    }
  }

  function Blocks(size: nat): nat {
    (size + BLOCK_SIZE - 1) / BLOCK_SIZE
  }

  lemma BlocksStep(size: nat)
    requires size > 0
    ensures Blocks(size) == 1 + Blocks(size - Block(size))
  {
  }

  lemma {:induction false} FramesSize(content: seq<u8>, c: Compressor)
    ensures Blocks(|content|) * 4 <= |Frames(content, c)| <= |content| + Blocks(|content|) * 4
    decreases |content|
  {
    if content != [] {
      var raw := Block(|content|);
      BlocksStep(|content|);
      FramesSize(content[raw..], c);
      hide Blocks, StoredBlock, Block;
    }
  }

  /** What the packer stores for a file, the reader turns back into the file. */
  lemma FileRoundTrip(content: seq<u8>, c: Compressor, d: Decompressor)
    requires Inverse(c, d)
    ensures var (storage, stored) := EncodeFile(content, c);
            && Decode(storage, stored, |content|, d) == Some(content)
            && (if storage == Store then |stored| == |content|
                else Blocks(|content|) * 4 <= |stored| <= |content| + Blocks(|content|) * 4)
  {
    FramesDecode(content, c, d);
    StoreDecode(content, d);
    FramesSize(content, c);
    hide Decode, Frames, Inverse;
  }

  datatype File = File(path: seq<u8>, content: seq<u8>)

  function Area(files: seq<File>, c: Compressor): seq<u8> {
    if files == [] then [] else EncodeFile(files[0].content, c).1 + Area(files[1..], c)
  }

  function Contents(files: seq<File>): nat {
    if files == [] then 0 else |files[0].content| + Contents(files[1..])
  }

  function MakeRaw(base: u64, f: File, c: Compressor): Raw
    requires |f.content| < TWO64 && |EncodeFile(f.content, c).1| < TWO64
  {
    var (storage, stored) := EncodeFile(f.content, c);
    Raw(f.path, if storage == Store then 0 else 1, 0, base, |stored|, |f.content|, Checksum(f.content), 0)
  }

  /** The index entries of files whose data follow each other from `base` on. */
  function MakeRaws(base: nat, files: seq<File>, c: Compressor): (rs: seq<Raw>)
    requires base + |Area(files, c)| < TWO64 && Contents(files) < TWO64
    ensures |rs| == |files|
    decreases |files|
  {
    if files == [] then []
    else [MakeRaw(base, files[0], c)] + MakeRaws(base + |EncodeFile(files[0].content, c).1|, files[1..], c)
  }

  /** Each entry is its file's, and its range in the area holds what the packer stored for it. */
  ghost predicate Describes(r: Raw, f: File, area: seq<u8>, base: nat, c: Compressor) {
    var (storage, stored) := EncodeFile(f.content, c);
    && r.path == f.path && r.storage == (if storage == Store then 0 else 1) && r.flags == r.reserved == 0
    && r.size == |f.content| && r.crc == Checksum(f.content)
    && base <= r.offset && r.offset + r.storedSize <= base + |area|
    && area[r.offset - base..r.offset - base + r.storedSize] == stored
  }

  lemma DescribesShifted(r: Raw, f: File, stored: seq<u8>, rest: seq<u8>, base: nat, c: Compressor)
    requires Describes(r, f, rest, base + |stored|, c)
    ensures Describes(r, f, stored + rest, base, c)
  {
    hide EncodeFile, Checksum;
    var at := r.offset - base;
    assert (stored + rest)[at..at + r.storedSize] == rest[at - |stored|..at - |stored| + r.storedSize];
  }

  lemma {:induction false} RawsDescribe(base: nat, files: seq<File>, c: Compressor)
    requires base + |Area(files, c)| < TWO64 && Contents(files) < TWO64
    ensures var rs := MakeRaws(base, files, c);
            && (forall i :: 0 <= i < |files| ==> Describes(rs[i], files[i], Area(files, c), base, c))
            && (forall i, j :: 0 <= i < j < |files| ==> End(rs[i]) <= rs[j].offset)
            && TotalSize(rs) == Contents(files)
    decreases |files|
  {
    hide EncodeFile, Checksum, Describes;
    if files != [] {
      var stored, rest := EncodeFile(files[0].content, c).1, files[1..];
      RawsDescribe(base + |stored|, rest, c);
      var rs, tail := MakeRaws(base, files, c), MakeRaws(base + |stored|, rest, c);
      assert rs[1..] == tail;
      FirstDescribes(base, files, c);
      forall i | 0 < i < |files|
        ensures Describes(rs[i], files[i], Area(files, c), base, c) && base + |stored| <= rs[i].offset
      {
        assert Describes(tail[i - 1], rest[i - 1], Area(rest, c), base + |stored|, c);
        DescribedStarts(tail[i - 1], rest[i - 1], Area(rest, c), base + |stored|, c);
        DescribesShifted(tail[i - 1], rest[i - 1], stored, Area(rest, c), base, c);
      }
    }
  }

  lemma DescribedStarts(r: Raw, f: File, area: seq<u8>, base: nat, c: Compressor)
    requires Describes(r, f, area, base, c)
    ensures base <= r.offset
  {
  }

  lemma MadeDescribes(base: u64, f: File, rest: seq<u8>, c: Compressor)
    requires |f.content| < TWO64 && |EncodeFile(f.content, c).1| < TWO64
    ensures var stored := EncodeFile(f.content, c).1;
            Describes(MakeRaw(base, f, c), f, stored + rest, base, c) && End(MakeRaw(base, f, c)) == base + |stored|
  {
    hide EncodeFile, Checksum;
    var stored := EncodeFile(f.content, c).1;
    HeadOf(stored, rest);
    var r := MakeRaw(base, f, c);
    assert r.offset - base == 0 && r.storedSize == |stored|;
  }

  lemma HeadOf(a: seq<u8>, b: seq<u8>)
    ensures (a + b)[0..|a|] == a
  {
  }

  lemma {:induction false} FirstDescribes(base: nat, files: seq<File>, c: Compressor)
    requires base + |Area(files, c)| < TWO64 && Contents(files) < TWO64 && files != []
    ensures var r := MakeRaws(base, files, c)[0];
            Describes(r, files[0], Area(files, c), base, c) && End(r) == base + |EncodeFile(files[0].content, c).1|
  {
    hide EncodeFile, MakeRaw, Describes;
    MadeDescribes(base, files[0], Area(files[1..], c), c);
  }

  /** Each range starts where the one before it ends. */
  lemma {:induction false} RawsFollow(base: nat, files: seq<File>, c: Compressor, i: nat)
    requires base + |Area(files, c)| < TWO64 && Contents(files) < TWO64 && i + 1 < |files|
    ensures var rs := MakeRaws(base, files, c); rs[i + 1].offset == End(rs[i])
    decreases |files|
  {
    hide EncodeFile, Checksum;
    var stored, rest := EncodeFile(files[0].content, c).1, files[1..];
    var rs, tail := MakeRaws(base, files, c), MakeRaws(base + |stored|, rest, c);
    assert rs[1..] == tail;
    if i > 0 {
      RawsFollow(base + |stored|, rest, c, i - 1);
    }
  }

  ghost predicate EmptyFilesLast(files: seq<File>) {
    forall i, j :: 0 <= i < j < |files| && files[i].content == [] ==> files[j].content == []
  }

  /** Where a non-empty file follows an empty one, one follows directly. */
  lemma {:induction false} EmptyBeforeNext(files: seq<File>, i: nat, j: nat) returns (k: nat)
    requires i < j < |files| && files[i].content == [] && files[j].content != []
    ensures k + 1 < |files| && files[k].content == [] && files[k + 1].content != []
    decreases j - i
  {
    if files[i + 1].content != [] {
      return i;
    }
    k := EmptyBeforeNext(files, i + 1, j);
  }

  lemma StoredIsEmpty(content: seq<u8>, c: Compressor, d: Decompressor)
    requires Inverse(c, d)
    ensures |EncodeFile(content, c).1| == 0 <==> content == []
  {
    FileRoundTrip(content, c, d);
  }

  /** An empty file shares its offset with a non-empty one exactly if some non-empty file follows it. */
  lemma {:induction false} SharingMeans(base: nat, files: seq<File>, c: Compressor, d: Decompressor)
    requires base + |Area(files, c)| < TWO64 && Contents(files) < TWO64 && Inverse(c, d)
    ensures NoEmptyShares(MakeRaws(base, files, c)) <==> EmptyFilesLast(files)
  {
    hide EncodeFile, Decode, Area, MakeRaws, Inverse, Checksum;
    var rs := MakeRaws(base, files, c);
    RawsDescribe(base, files, c);
    forall i | 0 <= i < |files|
      ensures rs[i].storedSize == 0 <==> files[i].content == []
    {
      assert Describes(rs[i], files[i], Area(files, c), base, c);
      StoredIsEmpty(files[i].content, c, d);
    }
    hide Describes;
    if i, j :| 0 <= i < j < |files| && files[i].content == [] && files[j].content != [] {
      var k := EmptyBeforeNext(files, i, j);
      RawsFollow(base, files, c, k);
    }
  }

  // ---------------------------------------------------------------------------------------------
  // The whole setup file
  // ---------------------------------------------------------------------------------------------

  function PathsOf(files: seq<File>): (ns: seq<Text>)
    ensures |ns| == |files|
  {
    seq(|files|, i requires 0 <= i < |files| => Lower(files[i].path))
  }

  /** What the packer checks before it writes anything. */
  ghost predicate Packable(files: seq<File>) {
    && 0 < |files| <= MAX_FILES && Contents(files) <= MAX_TOTAL_BYTES && Distinct(PathsOf(files))
    && forall i :: 0 <= i < |files| ==> SafeRelative(files[i].path)
  }

  /** The packer's own rule for a path, which counts characters where the parser counts bytes. */
  ghost predicate PackerAccepts(path: seq<u8>) {
    && (exists cs :: AllScalars(cs) && 0 < |cs| <= MAX_PATH_CHARS && EncodeAll(cs) == path)
    && SafeComponents(path)
  }

  /** The two agree on every path that is no longer in bytes than it may be in characters. */
  lemma PackerSplit(path: seq<u8>)
    ensures SafeRelative(path) <==> PackerAccepts(path) && |path| <= MAX_PATH_CHARS
  {
    hide SafeComponents, Utf8.Valid;
    ValidMeans(path);
    if IsEncoding(path) {
      var cs :| AllScalars(cs) && EncodeAll(cs) == path;
      BytesPerCharacter(cs);
    }
    forall cs: seq<nat> | AllScalars(cs) && 0 < |cs| && EncodeAll(cs) == path
      ensures path != []
    {
      BytesPerCharacter(cs);
    }
  }

  lemma {:induction false} BytesPerCharacter(cs: seq<nat>)
    requires AllScalars(cs)
    ensures |cs| <= |EncodeAll(cs)| && (cs == [] ==> EncodeAll(cs) == [])
  {
    if cs != [] {
      BytesPerCharacter(cs[1..]);
    }
  }

  /** A path beyond the byte limit spoils the index: no entries the parser takes have its encoding. */
  lemma {:induction false} OverlongIsRefused(rs: seq<Raw>, k: nat, taken: seq<Raw>)
    requires k < |rs| && |rs[k].path| > MAX_PATH_CHARS && forall i :: 0 <= i < |rs| ==> 0 < |rs[i].path| < 0x1_0000
    requires forall i :: 0 <= i < |taken| ==> 0 < |taken[i].path| <= MAX_PATH_CHARS
    ensures EncodeEntries(taken) != EncodeEntries(rs)
  {
    hide EncodeEntry;
    var s := EncodeEntries(rs);
    assert s[0..EntrySize(rs[0])] == EncodeEntry(rs[0]);
    if EncodeEntries(taken) == s {
      assert taken != [];
      assert s[0..EntrySize(taken[0])] == EncodeEntry(taken[0]);
      LengthReads(s, rs[0]);
      LengthReads(s, taken[0]);
      assert k > 0;
      EncodeReads(s, 0, rs[0]);
      EncodeReads(s, 0, taken[0]);
      assert EncodeEntries(rs[1..]) == s[EntrySize(rs[0])..] == EncodeEntries(taken[1..]);
      OverlongIsRefused(rs[1..], k - 1, taken[1..]);
    }
  }

  lemma LengthReads(s: seq<u8>, r: Raw)
    requires |r.path| < 0x1_0000 && EntrySize(r) <= |s| && s[0..EntrySize(r)] == EncodeEntry(r)
    ensures ReadLe(s, 0, 2) == |r.path|
  {
    Widths();
    EntryPieces(r);
    hide WriteLe, ReadLe, EncodeEntry;
    ReadField(s, 0, EncodeEntry(r), 0, |r.path|, 2);
  }

  lemma {:induction false} PackedIndexIsSmall(base: nat, files: seq<File>, c: Compressor)
    requires Packable(files) && base + |Area(files, c)| < TWO64
    ensures 0 < |EncodeEntries(MakeRaws(base, files, c))| <= 282 * MAX_FILES
  {
    hide EncodeFile, Area, MakeRaws, Checksum, EncodeEntries;
    var rs := MakeRaws(base, files, c);
    RawsDescribe(base, files, c);
    forall i | 0 <= i < |rs|
      ensures 0 < |rs[i].path| <= MAX_PATH_CHARS
    {
      assert Describes(rs[i], files[i], Area(files, c), base, c) && SafeRelative(files[i].path);
    }
    IndexIsSmall(rs);
  }

  datatype Setup = Setup(footer: Footer, raws: seq<Raw>, index: seq<u8>, file: seq<u8>)

  function Assemble(stub: seq<u8>, files: seq<File>, c: Compressor): Setup
    requires Packable(files) && |stub| + |Area(files, c)| < TWO64
  {
    PackedIndexIsSmall(|stub|, files, c);
    var area := Area(files, c);
    var raws := MakeRaws(|stub|, files, c);
    var index := EncodeEntries(raws);
    var footer := Footer(|stub|, |stub| + |area|, |index|, Contents(files), |files|, Checksum(index));
    Setup(footer, raws, index, stub + area + index + EncodeFooter(footer, 0, 0))
  }

  lemma {:induction false} IndexIsSmall(rs: seq<Raw>)
    requires forall i :: 0 <= i < |rs| ==> 0 < |rs[i].path| <= MAX_PATH_CHARS
    ensures |rs| <= |EncodeEntries(rs)| <= 282 * |rs|
  {
    hide EncodeEntry;
    if rs != [] {
      IndexIsSmall(rs[1..]);
    }
  }

  lemma DescribedIsOk(r: Raw, f: File, area: seq<u8>, base: nat, c: Compressor, d: Decompressor, footer: Footer)
    requires Describes(r, f, area, base, c) && Inverse(c, d) && SafeRelative(f.path) && |f.content| <= MAX_TOTAL_BYTES
    requires footer.payloadOffset == base && footer.indexOffset == base + |area|
    ensures EntryOk(r, footer) && r.path == f.path && 0 < |r.path| <= MAX_PATH_CHARS
  {
    hide EncodeFile, Decode, Inverse, Checksum;
    FileRoundTrip(f.content, c, d);
  }

  lemma {:induction false} EachWithin(files: seq<File>, i: nat)
    requires i < |files|
    ensures |files[i].content| <= Contents(files)
  {
    if i > 0 {
      EachWithin(files[1..], i - 1);
    }
  }

  /** One entry of the setup file is its file's, and its range holds that file's content. */
  ghost predicate Holds(s: Setup, i: nat, f: File, d: Decompressor)
    requires i < |s.raws|
  {
    var e := ToEntry(s.raws[i]);
    && e.path == f.path && e.offset + e.storedSize <= |s.file| && (e.storage == Store ==> e.storedSize == e.size)
    && var range := s.file[e.offset..e.offset + e.storedSize];
       Decode(e.storage, range, e.size, d) == Some(f.content) && HoldsContent(e, range, d)
  }

  /**
   Whatever was packed is read back: each entry's range decodes to its file, and the footer and the index are
   accepted, if the sort puts an empty entry before the one it shares its offset with. It has no choice in that
   exactly when no non-empty file comes after an empty one.
   */
  lemma {:induction false} SetupRoundTrip(stub: seq<u8>, files: seq<File>, c: Compressor, d: Decompressor)
    requires Packable(files) && Inverse(c, d)
    requires |stub| + |Area(files, c)| + 282 * MAX_FILES + FOOTER_SIZE < TWO64
    ensures var s := Assemble(stub, files, c);
            && |s.raws| == |files| && (forall i :: 0 <= i < |files| ==> Holds(s, i, files[i], d))
            && (forall order :: IsOrder(order, s.raws) ==>
                  (Lists(s.file, s.footer, order, s.raws) <==> TiesEmptyFirst(order, s.raws)))
            && ((forall order :: IsOrder(order, s.raws) ==> Lists(s.file, s.footer, order, s.raws))
                <==> EmptyFilesLast(files))
  {
    hide EncodeFile, Decode, Area, MakeRaws, Inverse, Checksum, Assemble, TiesEmptyFirst, IsOrder, Lists;
    var s := Assemble(stub, files, c);
    AssembledRaws(stub, files, c);
    forall i | 0 <= i < |files|
      ensures Holds(s, i, files[i], d)
    {
      EntryDecodes(stub, files, c, d, i);
    }
    forall order | IsOrder(order, s.raws)
      ensures Lists(s.file, s.footer, order, s.raws) <==> TiesEmptyFirst(order, s.raws)
      ensures ChainFits(order, s.raws) <==> TiesEmptyFirst(order, s.raws)
    {
      AssembledLists(stub, files, c, d, order);
      ChainMeans(order, s.raws);
    }
    EveryOrderMeans(s.raws);
    SharingMeans(|stub|, files, c, d);
  }

  lemma {:induction false} AssembledRaws(stub: seq<u8>, files: seq<File>, c: Compressor)
    requires Packable(files) && |stub| + |Area(files, c)| < TWO64
    ensures var s := Assemble(stub, files, c);
            |s.raws| == |files| && s.raws == MakeRaws(|stub|, files, c) && PairwiseApart(s.raws)
  {
    hide EncodeFile, Area, MakeRaws, Checksum, EncodeEntries, EncodeFooter;
    RawsDescribe(|stub|, files, c);
  }

  lemma {:induction false} AssembledLists(stub: seq<u8>, files: seq<File>, c: Compressor, d: Decompressor,
                                          order: seq<nat>)
    requires Packable(files) && Inverse(c, d)
    requires |stub| + |Area(files, c)| + 282 * MAX_FILES + FOOTER_SIZE < TWO64
    requires IsOrder(order, Assemble(stub, files, c).raws)
    ensures var s := Assemble(stub, files, c);
            && PairwiseApart(s.raws)
            && (Lists(s.file, s.footer, order, s.raws) <==> TiesEmptyFirst(order, s.raws))
  {
    hide EncodeFile, Decode, Area, MakeRaws, EncodeEntries, Inverse, Checksum, EncodeFooter, ParseFooter, SafeRelative,
         Describes, EntryOk, TiesEmptyFirst, IsOrder, Distinct;
    var s, rs := Assemble(stub, files, c), MakeRaws(|stub|, files, c);
    RawsDescribe(|stub|, files, c);
    RawsOk(stub, files, c, d, s.footer);
    PackedIndexIsSmall(|stub|, files, c);
    AssembledParts(stub, files, c);
    FooterRoundTrip(s.footer, 0, 0, |s.file|);
    assert Names(rs) == PathsOf(files);
    assert s.index[0..] == s.index;
  }

  /** Nothing but the packed entries can be read from the setup file. */
  lemma {:induction false} OnlyAssembled(stub: seq<u8>, files: seq<File>, c: Compressor, d: Decompressor, f: Footer,
                                         order: seq<nat>, rs: seq<Raw>)
    requires Packable(files) && Inverse(c, d)
    requires |stub| + |Area(files, c)| + 282 * MAX_FILES + FOOTER_SIZE < TWO64
    requires Lists(Assemble(stub, files, c).file, f, order, rs)
    ensures f == Assemble(stub, files, c).footer && rs == Assemble(stub, files, c).raws
  {
    hide EncodeFile, Decode, Area, MakeRaws, EncodeEntries, Inverse, Checksum, EncodeFooter, ParseFooter, SafeRelative,
         Describes, EntryOk, TiesEmptyFirst, IsOrder, Distinct, ParseFrom;
    var s, raws := Assemble(stub, files, c), MakeRaws(|stub|, files, c);
    RawsDescribe(|stub|, files, c);
    RawsOk(stub, files, c, d, s.footer);
    PackedIndexIsSmall(|stub|, files, c);
    AssembledParts(stub, files, c);
    FooterRoundTrip(s.footer, 0, 0, |s.file|);
    ParseFooterMeans(s.file[|s.file| - FOOTER_SIZE..], |s.file|, f);
    assert s.index[0..] == s.index;
    ParseComplete(s.index, s.footer, 0, |files|, 0, raws);
    AcceptsOnlyParsed(s.index, s.footer);
  }

  lemma {:induction false} RawsOk(stub: seq<u8>, files: seq<File>, c: Compressor, d: Decompressor, footer: Footer)
    requires Packable(files) && Inverse(c, d) && |stub| + |Area(files, c)| < TWO64
    requires footer.payloadOffset == |stub| && footer.indexOffset == |stub| + |Area(files, c)|
    ensures var rs := MakeRaws(|stub|, files, c);
            forall i :: 0 <= i < |files| ==>
              EntryOk(rs[i], footer) && rs[i].path == files[i].path && 0 < |rs[i].path| <= MAX_PATH_CHARS
  {
    hide EncodeFile, Decode, Area, MakeRaws, Inverse, Checksum, Describes, EntryOk;
    RawsDescribe(|stub|, files, c);
    var rs := MakeRaws(|stub|, files, c);
    forall i | 0 <= i < |files|
      ensures EntryOk(rs[i], footer) && rs[i].path == files[i].path && 0 < |rs[i].path| <= MAX_PATH_CHARS
    {
      EachWithin(files, i);
      DescribedIsOk(rs[i], files[i], Area(files, c), |stub|, c, d, footer);
    }
  }

  lemma {:induction false} AssembledParts(stub: seq<u8>, files: seq<File>, c: Compressor)
    requires Packable(files) && |stub| + |Area(files, c)| < TWO64
    ensures var s, a := Assemble(stub, files, c), |stub| + |Area(files, c)|;
            && |s.file| == a + |s.index| + FOOTER_SIZE
            && s.file[|s.file| - FOOTER_SIZE..] == EncodeFooter(s.footer, 0, 0)
            && s.file[a..a + |s.index|] == s.index && s.file[|stub|..a] == Area(files, c)
  {
    hide EncodeFooter, EncodeEntries, Area, MakeRaws, Checksum;
  }

  lemma {:induction false} EntryDecodes(stub: seq<u8>, files: seq<File>, c: Compressor, d: Decompressor, i: nat)
    requires Packable(files) && Inverse(c, d) && i < |files| && |stub| + |Area(files, c)| < TWO64
    ensures var s := Assemble(stub, files, c); i < |s.raws| && Holds(s, i, files[i], d)
  {
    hide EncodeFile, Decode, Area, MakeRaws, EncodeEntries, Inverse, Checksum, EncodeFooter;
    var s, area := Assemble(stub, files, c), Area(files, c);
    var r := s.raws[i];
    RawsDescribe(|stub|, files, c);
    AssembledParts(stub, files, c);
    hide Assemble;
    assert Describes(r, files[i], area, |stub|, c);
    var at := r.offset - |stub|;
    SubSlice(s.file, |stub|, |stub| + |area|, at, at + r.storedSize);
    FileRoundTrip(files[i].content, c, d);
  }

  lemma EmptyThenOne(base: u64, p: seq<u8>, q: seq<u8>, b: u8, c: Compressor)
    requires base + 1 < TWO64
    ensures var files := [File(p, []), File(q, [b])];
            && base + |Area(files, c)| < TWO64 && Contents(files) < TWO64
            && var rs := MakeRaws(base, files, c);
               rs[0].offset == rs[1].offset && rs[0].storedSize == 0 && rs[1].storedSize == 1
  {
    var files := [File(p, []), File(q, [b])];
    assert files[1..] == [File(q, [b])] && files[1..][1..] == [];
    assert EncodeFile([], c) == (Store, []);
    OneByteIsRaw(b, c);
    hide EncodeFile, Checksum;
    assert Contents(files[1..][1..]) == 0 && Contents(files[1..]) == 1 && Contents(files) == 1;
    assert Area(files[1..], c) == [b] && Area(files, c) == [b];
    assert MakeRaws(base, files, c)[1] == MakeRaws(base, files[1..], c)[0];
  }

  /** With one, acceptance hangs on the order the sort leaves equal offsets in. */
  lemma EmptyFileDependsOnSort(base: u64, p: seq<u8>, q: seq<u8>, b: u8, c: Compressor)
    requires base + 1 < TWO64
    ensures var files := [File(p, []), File(q, [b])];
            && base + |Area(files, c)| < TWO64 && Contents(files) < TWO64
            && var rs := MakeRaws(base, files, c);
               IsOrder([0, 1], rs) && ChainFits([0, 1], rs) && IsOrder([1, 0], rs) && !ChainFits([1, 0], rs)
  {
    EmptyThenOne(base, p, q, b, c);
    hide MakeRaws, Area, Contents;
    var rs := MakeRaws(base, [File(p, []), File(q, [b])], c);
    assert rs == [rs[0], rs[1]];
    assert End(rs[[1, 0][1 - 1]]) > rs[[1, 0][1]].offset;
  }

  lemma OneByteIsRaw(b: u8, c: Compressor)
    ensures EncodeFile([b], c) == (Store, [b])
  {
    assert [b][..1] == [b] && [b][1..] == [];
    assert Frames([], c) == [];
    assert |Frames([b], c)| >= 4;
  }

  lemma {:induction false} AssembledFits(stub: seq<u8>, files: seq<File>, c: Compressor)
    requires Packable(files) && |stub| + |Area(files, c)| + 282 * MAX_FILES + FOOTER_SIZE < TWO64
    ensures |Assemble(stub, files, c).file| < TWO64
  {
    hide EncodeFile, Area, MakeRaws, Checksum, EncodeEntries, EncodeFooter;
    PackedIndexIsSmall(|stub|, files, c);
    AssembledParts(stub, files, c);
  }

  method ReadAll(ghost s: Setup, ghost files: seq<File>, reader: PayloadReader, entries: seq<Entry>)
    returns (status: Status, contents: seq<seq<u8>>)
    requires reader.file == s.file && entries == Entries(s.raws) && |s.raws| == |files|
    requires forall i :: 0 <= i < |files| ==> Holds(s, i, files[i], reader.decompress)
    modifies reader
    ensures reader.asked >= old(reader.asked)
    ensures status == Ok ==> |contents| == |files| && forall i :: 0 <= i < |files| ==> contents[i] == files[i].content
    ensures reader.Granted(old(reader.asked)) ==> status == Ok
  {
    hide Decode, HoldsContent, Span, PayloadReader.Granted;
    status, contents := Ok, [];
    var i := 0;
    while i < |entries|
      invariant 0 <= i <= |entries| && |contents| == i && reader.asked >= old(reader.asked) && status == Ok
      invariant forall k :: 0 <= k < i ==> contents[k] == files[k].content
    {
      assert Holds(s, i, files[i], reader.decompress);
      ghost var asked := reader.asked;
      var content;
      status, content := reader.DecodeFile(entries[i]);
      reader.GrantedLater(old(reader.asked), asked);
      if status != Ok {
        return;
      }
      contents := contents + [content];
      i := i + 1;
    }
  }

  /**
   Reads every file of a setup, as an installation does. If nothing is refused, whatever was packed with its empty
   files last comes back complete and in order, whatever the sort does with equal offsets.
   */
  method ReadSetup(stub: seq<u8>, files: seq<File>, c: Compressor, reader: PayloadReader, sort: Sorter)
    returns (status: Status, contents: seq<seq<u8>>)
    requires Packable(files) && Inverse(c, reader.decompress) && Sorts(sort)
    requires |stub| + |Area(files, c)| + 282 * MAX_FILES + FOOTER_SIZE < TWO64
    requires reader.file == Assemble(stub, files, c).file
    modifies reader
    ensures status == Ok ==> |contents| == |files| && forall i :: 0 <= i < |files| ==> contents[i] == files[i].content
    ensures reader.Granted(old(reader.asked)) && EmptyFilesLast(files) ==> status == Ok
  {
    hide Assemble, Area, Packable, Inverse, Sorts, Lists, IsOrder, EmptyFilesLast;
    ghost var s := Assemble(stub, files, c);
    SetupRoundTrip(stub, files, c, reader.decompress);
    SortsIt(sort, s.raws);
    AssembledFits(stub, files, c);
    var footer, entries;
    status, footer, entries := reader.Open(sort);
    contents := [];
    if status != Ok {
      return;
    }

    ghost var rs :| Lists(s.file, footer, sort(rs).1, rs) && entries == Entries(rs);
    OnlyAssembled(stub, files, c, reader.decompress, footer, sort(rs).1, rs);
    status, contents := ReadAll(s, files, reader, entries);
  }

  lemma SortsIt(sort: Sorter, rs: seq<Raw>)
    requires Sorts(sort)
    ensures IsOrder(sort(rs).1, rs)
  {
  }
}
