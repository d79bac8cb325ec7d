/** The byte ring between the CEC driver and the reader of its device (cec/cec_dev.c). Received
    frames are stored as records of address, length and data; the reader takes bytes, in portions of
    any size. The two positions run from 0 to the buffer's size inclusive: a position that reaches the
    end stays there until the next byte. */
module CecRing {
  import opened Bytes
  import opened Words

  const SIZE := 4096           // OUTBUFFERSIZE
  const RECORD := 258          // sizeof(tCECMessage)
  const EUSERS := 87

  // ----- records and the frames they stand for --------------------------------------------

  predicate IsFrame(frame: seq<Byte>) {
    1 <= |frame| <= 256
  }

  /** The bytes of a tCECMessage that are stored: address, length, and that many bytes of data. */
  function Record(frame: seq<Byte>): (r: seq<Byte>)
    requires IsFrame(frame)
    ensures |r| == |frame| + 1
  {
    var length: Byte := |frame| - 1;
    [frame[0], length] + frame[1..]
  }

  /** A message of a header and n bytes is stored as the header, n, and the n bytes. */
  lemma RecordInBytes(header: Byte, data: seq<Byte>)
    requires |data| <= 255
    ensures Record([header] + data) == [header, |data|] + data
  {
    assert ([header] + data)[1..] == data;
  }

  ghost predicate AreFrames(frames: seq<seq<Byte>>) {
    forall k :: 0 <= k < |frames| ==> IsFrame(frames[k])
  }

  function Records(frames: seq<seq<Byte>>): seq<Byte>
    requires AreFrames(frames)
  {
    if frames == [] then [] else Record(frames[0]) + Records(frames[1..])
  }

  lemma {:induction false} RecordsAppend(frames: seq<seq<Byte>>, frame: seq<Byte>)
    requires AreFrames(frames) && IsFrame(frame)
    ensures AreFrames(frames + [frame])
    ensures Records(frames + [frame]) == Records(frames) + Record(frame)
  {
    if frames == [] {
      assert ([frame])[1..] == [];
      assert frames + [frame] == [frame];
    } else {
      RecordsAppend(frames[1..], frame);
      assert (frames + [frame])[1..] == frames[1..] + [frame];
    }
  }

  /** The frames of a byte stream, as a reader of the device splits it: an unfinished record at the end
      has to wait. */
  function Decoded(bytes: seq<Byte>): seq<seq<Byte>>
    decreases |bytes|
  {
    if |bytes| < 2 then []
    else
      var size: nat := bytes[1] as int + 2;
      if |bytes| < size then [] else [[bytes[0]] + bytes[2..size]] + Decoded(bytes[size..])
  }

  lemma DecodedRecord(frame: seq<Byte>, rest: seq<Byte>)
    requires IsFrame(frame)
    ensures Decoded(Record(frame) + rest) == [frame] + Decoded(rest)
  {
    var first := Record(frame);
    var bytes := first + rest;
    assert bytes[0] == frame[0] && bytes[1] == |frame| - 1;
    assert bytes[2..|first|] == first[2..] == frame[1..];
    assert [bytes[0]] + bytes[2..|first|] == frame;
    assert bytes[|first|..] == rest;
  }

  /** However much of the records has been read, it decodes to the frames they were made of, in order;
      and to all of them once everything has been read. */
  lemma {:induction false} ReadersSeeTheFrames(frames: seq<seq<Byte>>, n: nat)
    requires AreFrames(frames) && n <= |Records(frames)|
    ensures Decoded(Records(frames)[..n]) <= frames
    ensures n == |Records(frames)| ==> Decoded(Records(frames)[..n]) == frames
  {
    if frames != [] {
      var first, rest := Record(frames[0]), Records(frames[1..]);
      var read := (first + rest)[..n];
      if |first| <= n {
        assert read == first + rest[..n - |first|];
        DecodedRecord(frames[0], rest[..n - |first|]);
        ReadersSeeTheFrames(frames[1..], n - |first|);
        assert frames == [frames[0]] + frames[1..];
      } else if n >= 2 {
        assert read[1] == first[1] == |first| - 2;
      }
    }
  }

  // ----- the ring ------------------------------------------------------------------------

  datatype Ring = Ring(bytes: seq<Byte>, start: nat, end: nat)

  predicate IsRing(r: Ring) {
    |r.bytes| == SIZE && r.start <= SIZE && r.end <= SIZE
  }

  /** The bytes not read yet, oldest first. */
  function Unread(r: Ring): seq<Byte>
    requires IsRing(r)
  {
    if r.start <= r.end then r.bytes[r.start..r.end] else r.bytes[r.start..SIZE] + r.bytes[0..r.end]
  }

  function Available(r: Ring): (n: nat)
    requires IsRing(r)
    ensures n == |Unread(r)|
  {
    if r.start <= r.end then r.end - r.start else SIZE - r.start + r.end
  }

  /** memcpy to a position of the buffer. */
  function Overlay(buffer: seq<Byte>, at: nat, bytes: seq<Byte>): (s: seq<Byte>)
    requires at + |bytes| <= |buffer|
    ensures |s| == |buffer|
  {
    buffer[..at] + bytes + buffer[at + |bytes|..]
  }

  lemma OverlayParts(buffer: seq<Byte>, at: nat, bytes: seq<Byte>)
    requires at + |bytes| <= |buffer|
    ensures var s := Overlay(buffer, at, bytes);
            && s[..at] == buffer[..at] && s[at..at + |bytes|] == bytes
            && s[at + |bytes|..] == buffer[at + |bytes|..]
  {}

  /** The memory at the message's address holds its record; what lies behind is unknown. The second
      copy of a split record starts as many strides into it as bytes went into the first copy. */
  predicate Holds(memory: seq<Byte>, record: seq<Byte>, stride: nat) {
    record <= memory && stride * SIZE + RECORD <= |memory|
  }

  lemma Reaches(memory: seq<Byte>, stride: nat, space: nat, n: nat)
    requires space <= SIZE && n <= RECORD && stride * SIZE + RECORD <= |memory|
    ensures 0 <= stride * space && stride * space + n <= |memory|
  {
    assert stride * SIZE == stride * space + stride * (SIZE - space);
    assert stride * (SIZE - space) >= 0;
  }

  /** What the second copy of a split record fetches. */
  function Fetched(memory: seq<Byte>, stride: nat, space: nat, n: nat): (bytes: seq<Byte>)
    requires space <= SIZE && n <= RECORD && stride * SIZE + RECORD <= |memory|
    ensures |bytes| == n
  {
    Reaches(memory, stride, space, n);
    memory[stride * space..stride * space + n]
  }

  function Put(r: Ring, size: nat, memory: seq<Byte>, stride: nat): Ring
    requires IsRing(r) && 2 <= size < RECORD
    requires size <= |memory| && stride * SIZE + RECORD <= |memory|
  {
    var space := SIZE - r.end;
    if space >= size then
      Ring(Overlay(r.bytes, r.end, memory[..size]), r.start, r.end + size)
    else
      var once := Overlay(r.bytes, r.end, memory[..space]);
      Ring(Overlay(once, 0, Fetched(memory, stride, space, size - space)), r.start, size - space)
  }

  /** A record is neither split nor, if it is, at a place that the second copy misses. */
  predicate SplitsWell(end: nat, size: nat, stride: nat)
    requires end <= SIZE
  {
    stride == 1 || end == SIZE || size <= SIZE - end
  }

  /** There is a place for the record: the positions must not meet again, unless at the two ends of a
      buffer that nothing was ever read from. */
  predicate HasRoom(r: Ring, size: nat)
    requires IsRing(r)
  {
    Available(r) + size < SIZE || (r.start == 0 && Available(r) + size == SIZE)
  }

  lemma SplitPutUnread(r: Ring, size: nat, memory: seq<Byte>, stride: nat)
    requires IsRing(r) && 2 <= size < RECORD && HasRoom(r, size) && size > SIZE - r.end
    requires size <= |memory| && stride * SIZE + RECORD <= |memory|
    ensures IsRing(Put(r, size, memory, stride))
    ensures var space := SIZE - r.end;
            Unread(Put(r, size, memory, stride))
            == Unread(r) + (memory[..space] + Fetched(memory, stride, space, size - space))
  {
    var space := SIZE - r.end;
    TwoOverlays(r.bytes, r.start, r.end, memory[..space], Fetched(memory, stride, space, size - space));
  }

  /** What a split record leaves in the buffer: its first part up to the end, its second part at the
      beginning. */
  lemma TwoOverlays(buffer: seq<Byte>, start: nat, end: nat, first: seq<Byte>, second: seq<Byte>)
    requires |second| < start <= end && end + |first| == |buffer|
    ensures var after := Overlay(Overlay(buffer, end, first), 0, second);
            after[start..|buffer|] + after[0..|second|] == buffer[start..end] + (first + second)
  {
    var once := Overlay(buffer, end, first);
    var after := Overlay(once, 0, second);
    OverlayParts(buffer, end, first);
    OverlayParts(once, 0, second);
    assert after[..|second|] == second;
    assert after[start..] == once[start..];
    assert once[start..] == buffer[start..end] + first;
  }

  lemma FetchedNext(memory: seq<Byte>, record: seq<Byte>, stride: nat, space: nat)
    requires Holds(memory, record, stride) && |record| < RECORD && space <= SIZE && space <= |record|
    requires stride == 1 || space == 0
    ensures memory[..space] + Fetched(memory, stride, space, |record| - space) == record
  {
    assert stride * space == space;
  }

  lemma WholePutAppends(r: Ring, record: seq<Byte>, memory: seq<Byte>, stride: nat)
    requires IsRing(r) && 2 <= |record| < RECORD && Holds(memory, record, stride)
    requires |record| <= SIZE - r.end && HasRoom(r, |record|)
    ensures IsRing(Put(r, |record|, memory, stride))
    ensures Unread(Put(r, |record|, memory, stride)) == Unread(r) + record
  {
    assert memory[..|record|] == record;
    if r.start <= r.end {
      OverlayAfter(r.bytes, r.start, r.end, record);
    } else {
      OverlayBefore(r.bytes, r.start, r.end, record);
    }
  }

  lemma OverlayAfter(buffer: seq<Byte>, start: nat, end: nat, bytes: seq<Byte>)
    requires start <= end && end + |bytes| <= |buffer|
    ensures Overlay(buffer, end, bytes)[start..end + |bytes|] == buffer[start..end] + bytes
  {
    var after := Overlay(buffer, end, bytes);
    OverlayParts(buffer, end, bytes);
    assert after[start..end + |bytes|] == after[..end][start..] + after[end..end + |bytes|];
  }

  lemma OverlayBefore(buffer: seq<Byte>, start: nat, end: nat, bytes: seq<Byte>)
    requires end + |bytes| <= start <= |buffer|
    ensures var after := Overlay(buffer, end, bytes);
            after[start..|buffer|] + after[0..end + |bytes|] == buffer[start..|buffer|] + buffer[0..end] + bytes
  {
    var after := Overlay(buffer, end, bytes);
    OverlayParts(buffer, end, bytes);
    assert after[start..] == after[end + |bytes|..][start - end - |bytes|..] == buffer[start..];
    assert after[..end + |bytes|] == after[..end] + after[end..end + |bytes|];
  }

  lemma PutAppends(r: Ring, record: seq<Byte>, memory: seq<Byte>, stride: nat)
    requires IsRing(r) && 2 <= |record| < RECORD && Holds(memory, record, stride)
    requires HasRoom(r, |record|) && SplitsWell(r.end, |record|, stride)
    ensures IsRing(Put(r, |record|, memory, stride))
    ensures Unread(Put(r, |record|, memory, stride)) == Unread(r) + record
  {
    if |record| <= SIZE - r.end {
      WholePutAppends(r, record, memory, stride);
    } else {
      SplitPutUnread(r, |record|, memory, stride);
      FetchedNext(memory, record, stride, SIZE - r.end);
    }
  }

  /** Memory that holds the record and shows the fault of a badly split one: wherever the record has
      ended it differs from the first byte after the split. */
  lemma FaultyMemory(record: seq<Byte>, space: nat) returns (memory: seq<Byte>)
    requires 0 < space < |record| < RECORD
    ensures Holds(memory, record, RECORD)
    ensures RECORD * space < |memory| && memory[RECORD * space] != record[space]
  {
    var other: Byte := if record[space] == 0 then 1 else 0;
    var tail := seq(RECORD * SIZE + RECORD, _ => other);
    memory := record + tail;
    var far := RECORD * space;
    assert |record| <= far < |record| + |tail|;
    assert memory[far] == tail[far - |record|];
  }

  /** With the source's pointer, which steps by whole messages, a record is stored right whatever the
      memory behind the message holds exactly when it is not split, or split after none of its bytes;
      with a pointer that steps by bytes, always. */
  lemma PutAppendsExactlyWhen(r: Ring, record: seq<Byte>, stride: nat)
    requires IsRing(r) && 2 <= |record| < RECORD && stride in {1, RECORD}
    ensures (forall memory :: Holds(memory, record, stride) ==>
               Unread(Put(r, |record|, memory, stride)) == Unread(r) + record)
            <==> HasRoom(r, |record|) && SplitsWell(r.end, |record|, stride)
  {
    if HasRoom(r, |record|) && SplitsWell(r.end, |record|, stride) {
      forall memory | Holds(memory, record, stride)
        ensures Unread(Put(r, |record|, memory, stride)) == Unread(r) + record
      {
        PutAppends(r, record, memory, stride);
      }
    } else if !HasRoom(r, |record|) {
      var memory := record + seq(stride * SIZE + RECORD, _ => 0);
      assert Holds(memory, record, stride);
      NoRoomLoses(r, record, memory, stride);
    } else {
      var memory := FaultyMemory(record, SIZE - r.end);
      BadSplitSpoils(r, record, memory);
    }
  }

  lemma NoRoomLoses(r: Ring, record: seq<Byte>, memory: seq<Byte>, stride: nat)
    requires IsRing(r) && 2 <= |record| < RECORD && Holds(memory, record, stride)
    requires !HasRoom(r, |record|)
    ensures Unread(Put(r, |record|, memory, stride)) != Unread(r) + record
  {
    assert |Unread(Put(r, |record|, memory, stride))| < |Unread(r)| + |record|;
  }

  lemma BadSplitSpoils(r: Ring, record: seq<Byte>, memory: seq<Byte>)
    requires IsRing(r) && 2 <= |record| < RECORD && Holds(memory, record, RECORD)
    requires 0 < SIZE - r.end < |record|
    requires memory[RECORD * (SIZE - r.end)] != record[SIZE - r.end]
    requires HasRoom(r, |record|)
    ensures Unread(Put(r, |record|, memory, RECORD)) != Unread(r) + record
  {
    var space := SIZE - r.end;
    SplitPutUnread(r, |record|, memory, RECORD);
    var stored := memory[..space] + Fetched(memory, RECORD, space, |record| - space);
    assert stored[space] == memory[RECORD * space] != record[space];
    SameAfter(Unread(r), stored, record);
  }

  /** An instance: a standby message (0x40 0x36) that arrives when one byte is left before the end.
      The reader gets a length of 0 for it. */
  lemma AStandbyIsSpoiled(behind: seq<Byte>)
    requires behind == seq(RECORD * SIZE + RECORD, _ => 0)
    ensures var record, empty := Record([0x40, 0x36]), Ring(seq(SIZE, _ => 0), SIZE - 1, SIZE - 1);
            && record == [0x40, 1, 0x36]
            && Unread(Put(empty, 3, record + behind, RECORD)) != Unread(empty) + record
  {
    var record, empty := Record([0x40, 0x36]), Ring(seq(SIZE, _ => 0), SIZE - 1, SIZE - 1);
    assert record == [0x40, 1, 0x36];
    BadSplitSpoils(empty, record, record + behind);
  }

  lemma SameAfter(a: seq<Byte>, b: seq<Byte>, c: seq<Byte>)
    requires b != c
    ensures a + b != a + c
  {
    assert (a + b)[|a|..] == b && (a + c)[|a|..] == c;
  }

  // ----- reading -------------------------------------------------------------------------

  function Taken(r: Ring, len: nat): (after: Ring)
    requires IsRing(r) && len <= Available(r)
    ensures IsRing(after)
  {
    if r.start <= r.end || len <= SIZE - r.start then r.(start := r.start + len)
    else r.(start := len - (SIZE - r.start))
  }

  /** What the copies out of the buffer fetch. */
  function Front(r: Ring, len: nat): seq<Byte>
    requires IsRing(r) && len <= Available(r)
  {
    if r.start <= r.end || len <= SIZE - r.start then r.bytes[r.start..r.start + len]
    else r.bytes[r.start..SIZE] + r.bytes[0..len - (SIZE - r.start)]
  }

  lemma FrontThenRest(r: Ring, len: nat)
    requires IsRing(r) && len <= Available(r)
    ensures |Front(r, len)| == len
    ensures Front(r, len) + Unread(Taken(r, len)) == Unread(r)
  {
    if r.start <= r.end {
      FrontInOrder(r, len);
    } else {
      FrontAround(r, len);
    }
  }

  lemma FrontInOrder(r: Ring, len: nat)
    requires IsRing(r) && len <= Available(r) && r.start <= r.end
    ensures |Front(r, len)| == len && Front(r, len) + Unread(Taken(r, len)) == Unread(r)
  {
    Parted(r.bytes, r.start, r.start + len, r.end);
  }

  lemma FrontAround(r: Ring, len: nat)
    requires IsRing(r) && len <= Available(r) && r.start > r.end
    ensures |Front(r, len)| == len && Front(r, len) + Unread(Taken(r, len)) == Unread(r)
  {
    if len > SIZE - r.start {
      FrontWrapped(r.bytes, r.start, len - (SIZE - r.start), r.end);
    } else {
      FrontAtTheEnd(r.bytes, r.start, r.start + len, r.end);
    }
  }

  lemma FrontWrapped(b: seq<Byte>, start: nat, mid: nat, end: nat)
    requires mid <= end <= start <= SIZE == |b|
    ensures (b[start..SIZE] + b[0..mid]) + b[mid..end] == b[start..SIZE] + b[0..end]
  {
    Parted(b, 0, mid, end);
    Regrouped(b[start..SIZE], b[0..mid], b[mid..end]);
  }

  lemma FrontAtTheEnd(b: seq<Byte>, start: nat, mid: nat, end: nat)
    requires end <= start <= mid <= SIZE == |b|
    ensures b[start..mid] + (b[mid..SIZE] + b[0..end]) == b[start..SIZE] + b[0..end]
  {
    Parted(b, start, mid, SIZE);
    Regrouped(b[start..mid], b[mid..SIZE], b[0..end]);
  }

  lemma Parted(s: seq<Byte>, a: nat, b: nat, c: nat)
    requires a <= b <= c <= |s|
    ensures s[a..b] + s[b..c] == s[a..c]
  {}

  // ----- a read and the interrupt --------------------------------------------------------

  /** The number of bytes that GetMessageBufferSize computes from the end position it finds after it has
      compared the two. */
  function SizeFetched(ordered: bool, r: Ring): (n: nat)
    requires IsRing(r)
  {
    if ordered then (r.end - r.start) % WORD else SIZE - r.start + r.end
  }

  /** The end has wrapped since the comparison found the start before it. */
  predicate Torn(ordered: bool, r: Ring) {
    ordered && r.end < r.start
  }

  lemma SizeIsRightExactlyWhen(ordered: bool, r: Ring)
    requires IsRing(r) && (!ordered ==> r.end < r.start)
    ensures SizeFetched(ordered, r) == Available(r) <==> !Torn(ordered, r)
    ensures Torn(ordered, r) ==> SizeFetched(ordered, r) >= WORD - SIZE
  {
  }

  /** An instance: both positions are at the end, and a standby message arrives. The reader is told that
      there are more than four thousand million bytes, where there are three. */
  lemma AStandbyTearsTheSize(r: Ring, memory: seq<Byte>)
    requires IsRing(r) && r.start == r.end == SIZE && Holds(memory, Record([0x40, 0x36]), RECORD)
    ensures HasRoom(r, 3) && SplitsWell(r.end, 3, RECORD)
    ensures var after := Put(r, 3, memory, RECORD);
            && IsRing(after) && Torn(r.start <= r.end, after)
            && SizeFetched(r.start <= r.end, after) == WORD - SIZE + 3 && Available(after) == 3
  {
    PutAppends(r, Record([0x40, 0x36]), memory, RECORD);
  }

  lemma AdditionKeepsOrder(r: Ring, record: seq<Byte>, memory: seq<Byte>, stride: nat)
    requires IsRing(r) && 2 <= |record| < RECORD && Holds(memory, record, stride) && HasRoom(r, |record|)
    ensures var after := Put(r, |record|, memory, stride);
            && IsRing(after) && after.start == r.start && Available(after) == Available(r) + |record|
            && (r.end < r.start ==> after.end < after.start)
  {
  }

  /** An addition between any two steps of the copying changes neither the bytes that are copied nor the
      position that is left. */
  lemma AdditionLeavesTheFront(r: Ring, record: seq<Byte>, memory: seq<Byte>, stride: nat, len: nat)
    requires IsRing(r) && 2 <= |record| < RECORD && Holds(memory, record, stride)
    requires HasRoom(r, |record|) && SplitsWell(r.end, |record|, stride) && len <= Available(r)
    ensures var after := Put(r, |record|, memory, stride);
            && IsRing(after) && len <= Available(after)
            && Front(after, len) == Front(r, len) && Taken(after, len).start == Taken(r, len).start
  {
    var after := Put(r, |record|, memory, stride);
    PutAppends(r, record, memory, stride);
    AdditionKeepsOrder(r, record, memory, stride);
    FrontIsFirst(r, len);
    FrontIsFirst(after, len);
    FirstOfSum(Unread(r), record, len);
  }

  lemma FirstOfSum(a: seq<Byte>, b: seq<Byte>, n: nat)
    requires n <= |a|
    ensures (a + b)[..n] == a[..n]
  {}

  lemma FrontIsFirst(r: Ring, len: nat)
    requires IsRing(r) && len <= Available(r)
    ensures Front(r, len) == Unread(r)[..len]
  {
    FrontThenRest(r, len);
    FirstOfSum(Front(r, len), Unread(Taken(r, len)), len);
  }

  // ----- whole runs ----------------------------------------------------------------------

  /** A read compares the positions, computes the number of bytes from the end as it is then, and copies;
      a message may be added before each of these. */
  datatype Op = Add(frame: seq<Byte>, memory: seq<Byte>) | Compare | Fetch | Copy(len: nat)

  datatype Reading = Idle | Compared(ordered: bool) | Sized(n: nat)

  datatype Trace = Trace(ring: Ring, added: seq<seq<Byte>>, read: seq<Byte>, reading: Reading)

  ghost predicate IsTrace(t: Trace) {
    IsRing(t.ring) && AreFrames(t.added)
  }

  ghost predicate Accepts(t: Trace, op: Op, stride: nat) {
    && IsTrace(t)
    && match op
       case Add(frame, memory) =>
         && IsFrame(frame) && Holds(memory, Record(frame), stride)
         && HasRoom(t.ring, |frame| + 1) && SplitsWell(t.ring.end, |frame| + 1, stride)
       case Compare => t.reading.Idle?
       case Fetch => t.reading.Compared? && !Torn(t.reading.ordered, t.ring)
       case Copy(_) => t.reading.Sized?
  }

  ghost function Do(t: Trace, op: Op, stride: nat): Trace
    requires Keeps(t) && Accepts(t, op, stride)
  {
    match op
    case Add(frame, memory) =>
      t.(ring := Put(t.ring, |frame| + 1, memory, stride), added := t.added + [frame])
    case Compare => t.(reading := Compared(t.ring.start <= t.ring.end))
    case Fetch => t.(reading := Sized(SizeFetched(t.reading.ordered, t.ring)))
    case Copy(len) =>
      var n := Min(len, t.reading.n);
      t.(ring := Taken(t.ring, n), read := t.read + Front(t.ring, n), reading := Idle)
  }

  /** Read and unread bytes are the records added. What a read has found out stays true while messages
      are added. */
  ghost predicate Keeps(t: Trace) {
    && IsTrace(t) && t.read + Unread(t.ring) == Records(t.added)
    && (t.reading == Compared(false) ==> t.ring.end < t.ring.start)
    && (t.reading.Sized? ==> t.reading.n <= Available(t.ring))
  }

  lemma AddKeeps(t: Trace, frame: seq<Byte>, memory: seq<Byte>, stride: nat)
    requires Keeps(t) && Accepts(t, Add(frame, memory), stride)
    ensures Keeps(Do(t, Add(frame, memory), stride))
  {
    var record := Record(frame);
    PutAppends(t.ring, record, memory, stride);
    AdditionKeepsOrder(t.ring, record, memory, stride);
    RecordsAppend(t.added, frame);
    Regrouped(t.read, Unread(t.ring), record);
  }

  lemma CopyKeeps(t: Trace, len: nat, stride: nat)
    requires Keeps(t) && Accepts(t, Copy(len), stride)
    ensures Keeps(Do(t, Copy(len), stride))
  {
    var n := Min(len, t.reading.n);
    FrontThenRest(t.ring, n);
    Regrouped(t.read, Front(t.ring, n), Unread(Taken(t.ring, n)));
  }

  lemma DoKeeps(t: Trace, op: Op, stride: nat)
    requires Keeps(t) && Accepts(t, op, stride)
    ensures Keeps(Do(t, op, stride))
  {
    match op {
      case Add(frame, memory) => AddKeeps(t, frame, memory, stride);
      case Compare =>
      case Fetch => SizeIsRightExactlyWhen(t.reading.ordered, t.ring);
      case Copy(len) => CopyKeeps(t, len, stride);
    }
  }

  ghost predicate IsRun(traces: seq<Trace>, ops: seq<Op>, stride: nat) {
    && |traces| == |ops| + 1
    && IsRing(traces[0].ring) && Unread(traces[0].ring) == [] && traces[0].added == [] && traces[0].read == []
    && traces[0].reading.Idle?
    && forall k :: 0 <= k < |ops| ==> Follows(traces, ops, stride, k)
  }

  ghost predicate Follows(traces: seq<Trace>, ops: seq<Op>, stride: nat, k: nat)
    requires k < |ops| && |traces| == |ops| + 1
  {
    Keeps(traces[k]) ==> Accepts(traces[k], ops[k], stride) && traces[k + 1] == Do(traces[k], ops[k], stride)
  }

  lemma {:induction false} RunKeeps(traces: seq<Trace>, ops: seq<Op>, stride: nat, k: nat)
    requires IsRun(traces, ops, stride) && k <= |ops|
    ensures Keeps(traces[k])
  {
    if k > 0 {
      RunKeeps(traces, ops, stride, k - 1);
      assert Follows(traces, ops, stride, k - 1);
      DoKeeps(traces[k - 1], ops[k - 1], stride);
    }
  }

  /** Over any run of frames received and reads of any sizes, with frames received between the steps of
      a read too, what has been read decodes to the frames received, in order; to all of them when
      nothing is left unread. */
  lemma FramesArriveInOrder(traces: seq<Trace>, ops: seq<Op>, stride: nat, k: nat)
    requires IsRun(traces, ops, stride) && k <= |ops|
    ensures var t := traces[k];
            && IsTrace(t)
            && t.read + Unread(t.ring) == Records(t.added)
            && Decoded(t.read) <= t.added
            && (Available(t.ring) == 0 ==> Decoded(t.read) == t.added)
  {
    RunKeeps(traces, ops, stride, k);
    var t := traces[k];
    assert Records(t.added)[..|t.read|] == t.read;
    ReadersSeeTheFrames(t.added, |t.read|);
  }

  // ----- the driver ----------------------------------------------------------------------

  class Device {
    var outputBufferStart: nat
    var outputBufferEnd: nat
    const outputBuffer: array<Byte>
    ghost var ring: Ring              // what the three hold

    ghost predicate Valid()
      reads this, outputBuffer
    {
      IsRing(ring) && ring == Ring(outputBuffer[..], outputBufferStart, outputBufferEnd)
    }

    constructor ()
      ensures Valid() && Unread(ring) == [] && ring.start == 0 && fresh(outputBuffer) && outputBuffer.Length == 4096
    {
      outputBuffer := new Byte[SIZE](_ => 0);
      outputBufferStart, outputBufferEnd := 0, 0;
      new;
      ring := Ring(outputBuffer[..], 0, 0);
    }

    /** The two steps of GetMessageBufferSize. */
    method ComparePositions() returns (ordered: bool)
      requires Valid()
      ensures ordered == (ring.start <= ring.end)
    {
      ordered := outputBufferStart <= outputBufferEnd;
    }

    method FetchSize(ordered: bool) returns (availableBytes: nat)
      requires Valid() && (!ordered ==> ring.end < ring.start)
      ensures availableBytes == SizeFetched(ordered, ring)
      ensures availableBytes == |Unread(ring)| <==> !Torn(ordered, ring)
    {
      SizeIsRightExactlyWhen(ordered, ring);
      if ordered {
        availableBytes := (outputBufferEnd - outputBufferStart) % WORD;
      } else {
        availableBytes := SIZE - outputBufferStart + outputBufferEnd;
      }
    }

    method GetMessageBufferSize() returns (availableBytes: nat)
      requires Valid()
      ensures availableBytes == |Unread(ring)|
    {
      var ordered := ComparePositions();
      availableBytes := FetchSize(ordered);
    }

    /** memcpy out of the buffer. */
    method CopyOut(from: nat, len: nat) returns (bytes: seq<Byte>)
      requires from + len <= outputBuffer.Length
      ensures bytes == outputBuffer[..][from..from + len]
    {
      bytes := outputBuffer[from..from + len];
    }

    /** memcpy into the buffer. */
    method CopyIn(at: nat, bytes: seq<Byte>)
      requires at + |bytes| <= outputBuffer.Length
      modifies outputBuffer
      ensures outputBuffer[..] == Overlay(old(outputBuffer[..]), at, bytes)
    {
      forall k | 0 <= k < |bytes| {
        outputBuffer[at + k] := bytes[k];
      }
      ghost var was := old(outputBuffer[..]);
      assert forall k :: 0 <= k < at ==> outputBuffer[k] == was[k];
      assert forall k :: at <= k < at + |bytes| ==> outputBuffer[k] == bytes[k - at];
      assert forall k :: at + |bytes| <= k < |was| ==> outputBuffer[k] == was[k];
    }

    method GetMessageFromBuffer(len: nat) returns (msg: seq<Byte>)
      requires Valid() && len <= |Unread(ring)|
      modifies this`outputBufferStart, this`ring
      ensures Valid()
      ensures ring == Taken(old(ring), len) && msg == Front(old(ring), len)
      ensures msg + Unread(ring) == old(Unread(ring)) && |msg| == len
    {
      FrontThenRest(ring, len);
      ring := Taken(ring, len);
      if outputBufferStart <= outputBufferEnd {
        msg := CopyOut(outputBufferStart, len);
        outputBufferStart := outputBufferStart + len;
      } else {
        var dataAtTheEnd := SIZE - outputBufferStart;
        if len > dataAtTheEnd {
          msg := CopyOut(outputBufferStart, dataAtTheEnd);
          var second := CopyOut(0, len - dataAtTheEnd);
          msg := msg + second;
          outputBufferStart := len - dataAtTheEnd;
        } else {
          msg := CopyOut(outputBufferStart, len);
          outputBufferStart := outputBufferStart + len;
        }
      }
    }

    /** AddMessageBuffer; the memory starts at the message. The source's stride is RECORD. */
    method AddMessageBuffer(messageSize: nat, memory: seq<Byte>, stride: nat)
      requires Valid() && 2 <= messageSize < RECORD
      requires messageSize <= |memory| && stride * SIZE + RECORD <= |memory|
      modifies this`outputBufferEnd, this`ring, outputBuffer
      ensures Valid() && ring == Put(old(ring), messageSize, memory, stride)
    {
      ring := Put(ring, messageSize, memory, stride);
      var spaceAtTheEnd := SIZE - outputBufferEnd;
      if spaceAtTheEnd >= messageSize {
        CopyIn(outputBufferEnd, memory[..messageSize]);
        outputBufferEnd := outputBufferEnd + messageSize;
      } else {
        CopyIn(outputBufferEnd, memory[..spaceAtTheEnd]);
        CopyIn(0, Fetched(memory, stride, spaceAtTheEnd, messageSize - spaceAtTheEnd));
        outputBufferEnd := messageSize - spaceAtTheEnd;
      }
    }

    /** AddMessageToBuffer: a frame is stored as its record. */
    method AddMessageToBuffer(rawmsg: seq<Byte>, behind: seq<Byte>, stride: nat)
      requires Valid() && IsFrame(rawmsg) && stride in {1, RECORD} && stride * SIZE + RECORD <= |behind|
      modifies this`outputBufferEnd, this`ring, outputBuffer
      ensures Valid() && ring == Put(old(ring), |rawmsg| + 1, Record(rawmsg) + behind, stride)
      ensures old(HasRoom(ring, |rawmsg| + 1)) && SplitsWell(old(outputBufferEnd), |rawmsg| + 1, stride) ==>
                Unread(ring) == old(Unread(ring)) + Record(rawmsg)
    {
      var address := rawmsg[0];
      var length: Byte := |rawmsg| - 1;
      var memory := [address, length] + rawmsg[1..] + behind;
      assert memory == Record(rawmsg) + behind;
      AddMessageBuffer(length + 2, memory, stride);
      if old(HasRoom(ring, |rawmsg| + 1)) && SplitsWell(old(outputBufferEnd), |rawmsg| + 1, stride) {
        PutAppends(old(ring), Record(rawmsg), memory, stride);
      }
    }

    /** CECdev_read, for the file that opened the device and for any other one. */
    method Read(opener: bool, len: nat) returns (r: int, buff: seq<Byte>)
      requires Valid()
      modifies this`outputBufferStart, this`ring
      ensures Valid()
      ensures !opener ==> r == -87 && buff == [] && ring == old(ring)
      ensures opener ==>
                && buff + Unread(ring) == old(Unread(ring))
                && |buff| == r && (r == len || (r < len && Unread(ring) == []))
    {
      var availableBytes := GetMessageBufferSize();
      buff := [];
      if !opener {
        return -EUSERS, [];
      }
      var n := if len > availableBytes then availableBytes else len;
      if n > 0 {
        buff := GetMessageFromBuffer(n);
      }
      r := n;
    }
  }
}
