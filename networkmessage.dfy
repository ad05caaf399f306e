// The bounds-checked message buffer of server/network/message/networkmessage.cpp.
//
// The buffer is a fixed array of NETWORKMESSAGE_MAXSIZE bytes with a read/write `position`
// and a logical `length`, both 16-bit (MsgSize_t). Every operation is specified by a pure
// function on `MsgState` (the buffer contents, position and length); the class
// `NetworkMessage` performs the same operation in place on an array and is proved to
// produce exactly that new state. Latin-1 transcoding is the identity on byte strings.
module Network {
  import opened Ints
  import opened Wrappers

  // Constants of the message header (not part of this model), TFS/Canary values.
  const NETWORKMESSAGE_MAXSIZE: int := 24590
  const HEADER_LENGTH: int := 2
  const CHECKSUM_LENGTH: int := 4
  const XTEA_MULTIPLE: int := 8
  const MAX_BODY_LENGTH: int := NETWORKMESSAGE_MAXSIZE - HEADER_LENGTH - CHECKSUM_LENGTH - XTEA_MULTIPLE
  const INITIAL_BUFFER_POSITION: int := 8
  /** The byte addPaddingBytes writes. */
  const PADDING_BYTE: uint8 := 0x33

  type Bytes = seq<uint8>

  /** A map position as the protocol sends it. */
  datatype Position = Position(x: uint16, y: uint16, z: uint8)

  /** The whole observable state of a message. */
  datatype MsgState = MsgState(buf: Bytes, position: uint16, length: uint16)

  predicate WellFormed(st: MsgState) {
    |st.buf| == NETWORKMESSAGE_MAXSIZE
  }

  /** canAdd: `size + position < MAX_BODY_LENGTH`, computed in size_t (wraps modulo 2^64). */
  predicate CanAddAt(position: uint16, size: uint64) {
    ToU64(size + position) < MAX_BODY_LENGTH
  }

  /** canRead: `size <= length - (position - INITIAL_BUFFER_POSITION)`, computed in int. */
  predicate CanReadAt(position: uint16, length: uint16, size: int) {
    size <= length - (position - INITIAL_BUFFER_POSITION)
  }

  /** `bytes` written over `s` starting at index `at`. */
  function Overwrite(s: Bytes, at: nat, bytes: Bytes): (r: Bytes)
    requires at + |bytes| <= |s|
    ensures |r| == |s|
    ensures forall i :: 0 <= i < at ==> r[i] == s[i]
    ensures forall i :: 0 <= i < |bytes| ==> r[at + i] == bytes[i]
    ensures forall i :: at + |bytes| <= i < |s| ==> r[i] == s[i]
    ensures r[at..at + |bytes|] == bytes
  {
    s[..at] + bytes + s[at + |bytes|..]
  }

  /** The effect of every successful write: the bytes land at `position`, position and
      length grow by their count (length in 16-bit arithmetic), nothing else moves. */
  function Put(st: MsgState, bytes: Bytes): (r: MsgState)
    requires WellFormed(st)
    requires st.position + |bytes| < MAX_BODY_LENGTH
    ensures WellFormed(r)
    ensures r.buf == Overwrite(st.buf, st.position, bytes)
    ensures r.position == st.position + |bytes| < MAX_BODY_LENGTH
    ensures r.length == ToU16(st.length + |bytes|)
  {
    MsgState(Overwrite(st.buf, st.position, bytes), st.position + |bytes|, ToU16(st.length + |bytes|))
  }

  /** The two bytes of a 16-bit value in little-endian order (x86 memory layout of add<uint16_t>). */
  function LittleEndian16(v: uint16): (r: Bytes)
    ensures |r| == 2 && r[0] as int + 0x100 * r[1] as int == v
  {
    [v % 0x100, v / 0x100]
  }

  /** The 16-bit value of a low and a high byte; the inverse of LittleEndian16. */
  function FromLittleEndian16(lo: uint8, hi: uint8): (v: uint16)
    ensures LittleEndian16(v) == [lo, hi]
  {
    lo as int + 0x100 * hi as int
  }

  // ---------------------------------------------------------------- writers

  /** addByte (networkmessage.cpp:209-222). */
  function AddByteSpec(st: MsgState, value: uint8): (r: MsgState)
    requires WellFormed(st)
    ensures WellFormed(r)
    ensures CanAddAt(st.position, 1) ==> r == Put(st, [value])
    ensures !CanAddAt(st.position, 1) ==> r == st
  {
    if !CanAddAt(st.position, 1) then st else Put(st, [value])
  }

  /** add<uint16_t>, whose template is in the header: a checked two-byte write. */
  function AddU16Spec(st: MsgState, value: uint16): (r: MsgState)
    requires WellFormed(st)
    ensures WellFormed(r)
    ensures CanAddAt(st.position, 2) ==> r == Put(st, LittleEndian16(value))
    ensures !CanAddAt(st.position, 2) ==> r == st
  {
    if !CanAddAt(st.position, 2) then st else Put(st, LittleEndian16(value))
  }

  /** addBytes (networkmessage.cpp:224-241): `bytes == None` is the null pointer; the
      caller's pointer designates at least `size` bytes. */
  function AddBytesSpec(st: MsgState, bytes: Option<Bytes>, size: uint64): (r: MsgState)
    requires WellFormed(st)
    requires bytes.Some? ==> size <= |bytes.value|
    ensures WellFormed(r)
  {
    if bytes.None? then st
    else if !CanAddAt(st.position, size) then st
    else if size > NETWORKMESSAGE_MAXSIZE then st
    else Put(st, bytes.value[..size])
  }

  /** addPaddingBytes (networkmessage.cpp:243-252) as corrected: besides canAdd it rejects
      `n > NETWORKMESSAGE_MAXSIZE`, the guard addBytes has (see PaddingGuardWraps). */
  function AddPaddingBytesSpec(st: MsgState, n: uint64): (r: MsgState)
    requires WellFormed(st)
    ensures WellFormed(r)
  {
    if !CanAddAt(st.position, n) || n > NETWORKMESSAGE_MAXSIZE then st
    else Put(st, seq(n, _ => PADDING_BYTE))
  }

  /** addString (networkmessage.cpp:136-191) on the Latin-1 bytes of the value. */
  function AddStringSpec(st: MsgState, value: Bytes): (r: MsgState)
    requires WellFormed(st)
    requires |value| < 0x1_0000_0000_0000_0000
    ensures WellFormed(r)
  {
    if |value| == 0 then AddU16Spec(st, 0)
    else if !CanAddAt(st.position, ToU64(|value| + 2)) then st
    else if |value| > NETWORKMESSAGE_MAXSIZE then st
    else
      var withLength := AddU16Spec(st, |value|);
      Put(withLength, value)
  }

  /** addPosition: x and y as 16-bit values, then z as a byte. */
  function AddPositionSpec(st: MsgState, pos: Position): (r: MsgState)
    requires WellFormed(st)
    ensures WellFormed(r)
  {
    AddByteSpec(AddU16Spec(AddU16Spec(st, pos.x), pos.y), pos.z)
  }

  /** append (networkmessage.cpp:307-329): the other message's `length` bytes from
      INITIAL_BUFFER_POSITION are copied to this message's position. */
  function AppendSpec(st: MsgState, other: MsgState): (r: MsgState)
    requires WellFormed(st) && WellFormed(other)
    ensures WellFormed(r)
  {
    var n := other.length;
    if !CanAddAt(st.position, n) then st
    else Put(st, other.buf[INITIAL_BUFFER_POSITION..INITIAL_BUFFER_POSITION + n])
  }

  // ---------------------------------------------------------------- readers

  /** getByte (networkmessage.cpp:56-77). `buffer.at(position++)` increments before `at`
      throws, so an index past the array still moves the position. */
  function GetByteSpec(st: MsgState): (r: (uint8, MsgState))
    requires WellFormed(st)
    ensures WellFormed(r.1) && r.1.buf == st.buf && r.1.length == st.length
  {
    if !CanReadAt(st.position, st.length, 1) then (0, st)
    else if st.position == 0 then (0, st)
    else if st.position >= |st.buf| then (0, st.(position := ToU16(st.position + 1)))
    else (st.buf[st.position], st.(position := st.position + 1))
  }

  /** getPreviousByte (networkmessage.cpp:79-95): decrement, then read with `at`. */
  function GetPreviousByteSpec(st: MsgState): (r: (uint8, MsgState))
    requires WellFormed(st)
    ensures WellFormed(r.1) && r.1.buf == st.buf && r.1.length == st.length
  {
    if st.position == 0 then (0, st)
    else
      var p := st.position - 1;
      if p >= |st.buf| then (0, st.(position := p))
      else (st.buf[p], st.(position := p))
  }

  /** Whether `size` bytes at the position are readable and inside the array: canRead
      plus the capacity check the corrected readers add (see CanReadIgnoresCapacity). */
  predicate CanReadInBuffer(st: MsgState, size: int)
    requires WellFormed(st)
  {
    CanReadAt(st.position, st.length, size) && st.position + size <= |st.buf|
  }

  /** get<uint16_t>, whose template is in the header: a two-byte little-endian read with
      the corrected guard. */
  function GetU16Spec(st: MsgState): (r: (uint16, MsgState))
    requires WellFormed(st)
    ensures WellFormed(r.1) && r.1.buf == st.buf && r.1.length == st.length
  {
    if !CanReadInBuffer(st, 2) then (0, st)
    else (FromLittleEndian16(st.buf[st.position], st.buf[st.position + 1]), st.(position := st.position + 2))
  }

  /** decodeHeader (networkmessage.cpp:22-53): reads at the position and then advances it
      by sizeof(int), four bytes. */
  function DecodeHeaderSpec(st: MsgState): (r: (int32, MsgState))
    requires WellFormed(st)
    ensures WellFormed(r.1) && r.1.buf == st.buf && r.1.length == st.length
  {
    if !CanReadAt(st.position, st.length, 2) then (0, st)
    else if st.position + 1 < |st.buf| then
      (FromLittleEndian16(st.buf[st.position], st.buf[st.position + 1]), st.(position := st.position + 4))
    else (0, st)
  }

  /** getString (networkmessage.cpp:97-121): a zero `stringLen` means "read a 2-byte length
      first". The copy is checked against the capacity as corrected. */
  function GetStringSpec(st: MsgState, stringLen: uint16): (r: (Bytes, MsgState))
    requires WellFormed(st)
    ensures WellFormed(r.1) && r.1.buf == st.buf && r.1.length == st.length
  {
    var (len, st1) := if stringLen == 0 then GetU16Spec(st) else (stringLen, st);
    if !CanReadAt(st1.position, st1.length, len) then ([], st1)
    else if len > NETWORKMESSAGE_MAXSIZE then ([], st1)
    else if st1.position + len > |st1.buf| then ([], st1)
    else (st1.buf[st1.position..st1.position + len], st1.(position := st1.position + len))
  }

  /** getPosition: x and y as 16-bit values, then z as a byte. */
  function GetPositionSpec(st: MsgState): (r: (Position, MsgState))
    requires WellFormed(st)
    ensures WellFormed(r.1) && r.1.buf == st.buf && r.1.length == st.length
  {
    var (x, st1) := GetU16Spec(st);
    var (y, st2) := GetU16Spec(st1);
    var (z, st3) := GetByteSpec(st2);
    (Position(x, y, z), st3)
  }

  /** skipBytes: `position += count` in 16-bit arithmetic, unchecked. */
  function SkipBytesSpec(st: MsgState, count: int16): (r: MsgState)
    ensures r.buf == st.buf && r.length == st.length
    ensures (r.position - (st.position + count)) % 0x1_0000 == 0
  {
    st.(position := ToU16(st.position + count))
  }

  /** getLengthHeader: the first two bytes, little-endian. */
  function LengthHeader(st: MsgState): (r: uint16)
    requires WellFormed(st)
    ensures r == FromLittleEndian16(st.buf[0], st.buf[1])
  {
    FromLittleEndian16(st.buf[0], st.buf[1])
  }

  // ---------------------------------------------------------------- properties

  /** canAdd(size) for a size no larger than the maximum message size cannot wrap. */
  lemma CanAddWithoutWrap(position: uint16, size: uint64)
    requires size <= NETWORKMESSAGE_MAXSIZE
    ensures CanAddAt(position, size) <==> position + size < MAX_BODY_LENGTH
  {
  }

  /** Every writer fails closed: either the state is unchanged, or the position stays inside
      the body and the bytes from the old position on are the only ones written. */
  lemma {:induction false} WritersStayInBody(st: MsgState, bytes: Option<Bytes>, size: uint64, n: uint64)
    requires WellFormed(st)
    requires bytes.Some? ==> size <= |bytes.value|
    ensures var r := AddBytesSpec(st, bytes, size);
      r == st || (r.position == st.position + size < MAX_BODY_LENGTH &&
                  r.buf == Overwrite(st.buf, st.position, bytes.value[..size]))
    ensures var r := AddPaddingBytesSpec(st, n);
      r == st || (r.position == st.position + n < MAX_BODY_LENGTH &&
                  r.buf == Overwrite(st.buf, st.position, seq(n, _ => PADDING_BYTE)))
  {
    if bytes.Some? && CanAddAt(st.position, size) && size <= NETWORKMESSAGE_MAXSIZE {
      CanAddWithoutWrap(st.position, size);
    }
    if CanAddAt(st.position, n) && n <= NETWORKMESSAGE_MAXSIZE {
      CanAddWithoutWrap(st.position, n);
    }
  }

  /** addBytes succeeds exactly when the pointer is non-null, canAdd holds and the size is
      within the maximum; on success all other bytes keep their values. */
  lemma {:induction false} AddBytesOutcome(st: MsgState, bytes: Option<Bytes>, size: uint64)
    requires WellFormed(st)
    requires bytes.Some? ==> size <= |bytes.value|
    ensures var ok := bytes.Some? && CanAddAt(st.position, size) && size <= NETWORKMESSAGE_MAXSIZE;
      var r := AddBytesSpec(st, bytes, size);
      (!ok ==> r == st) &&
      (ok ==> r.position == st.position + size && r.length == ToU16(st.length + size) &&
              r.buf[st.position..st.position + size] == bytes.value[..size] &&
              forall i :: 0 <= i < |st.buf| && !(st.position <= i < st.position + size) ==> r.buf[i] == st.buf[i])
  {
    if bytes.Some? && CanAddAt(st.position, size) && size <= NETWORKMESSAGE_MAXSIZE {
      CanAddWithoutWrap(st.position, size);
    }
  }

  /** A successful getByte followed by getPreviousByte returns the same byte and restores
      the position. */
  lemma ByteThenPreviousByte(st: MsgState)
    requires WellFormed(st)
    requires CanReadAt(st.position, st.length, 1) && st.position != 0 && st.position < |st.buf|
    ensures var (b, st1) := GetByteSpec(st);
      var (b', st2) := GetPreviousByteSpec(st1);
      b == b' == st.buf[st.position] && st2 == st
  {
  }

  /** getString never consumes more than it returns: on failure the position is where the
      length prefix (if any) left it; on success it advances by exactly the string length
      and the result lies inside the array. */
  lemma {:induction false} GetStringConsumes(st: MsgState, stringLen: uint16)
    requires WellFormed(st)
    ensures var (s, r) := GetStringSpec(st, stringLen);
      var st1 := if stringLen == 0 then GetU16Spec(st).1 else st;
      (s == [] && r == st1) ||
      (r.position == st1.position + |s| <= |st.buf| && s == st.buf[st1.position..r.position])
  {
  }

  /** The string round trip: what addString writes at a position, getString read from that
      position returns, leaving the position where addString left it. The reader needs the
      logical length to cover the position before the write, and the length must not wrap. */
  lemma {:induction false} StringRoundTrip(st: MsgState, value: Bytes)
    requires WellFormed(st)
    requires st.position <= st.length + INITIAL_BUFFER_POSITION
    requires st.length + |value| + 2 < 0x1_0000
    requires if value == [] then CanAddAt(st.position, 2)
             else CanAddAt(st.position, |value| + 2) && |value| <= NETWORKMESSAGE_MAXSIZE
    ensures var written := AddStringSpec(st, value);
      GetStringSpec(written.(position := st.position), 0) == (value, written)
  {
    AddStringLayout(st, value);
    StringReadsBack(AddStringSpec(st, value), st.position, st.length, value);
  }

  /** Where addString puts things: the 2-byte length prefix at the position, the bytes after it. */
  lemma {:induction false} AddStringLayout(st: MsgState, value: Bytes)
    requires WellFormed(st)
    requires st.length + |value| + 2 < 0x1_0000
    requires if value == [] then CanAddAt(st.position, 2)
             else CanAddAt(st.position, |value| + 2) && |value| <= NETWORKMESSAGE_MAXSIZE
    ensures var w := AddStringSpec(st, value);
      var p := st.position;
      w.position == p + 2 + |value| < MAX_BODY_LENGTH &&
      w.length == st.length + |value| + 2 &&
      w.buf[p..p + 2] == LittleEndian16(|value|) &&
      w.buf[p + 2..p + 2 + |value|] == value
  {
    var p := st.position;
    var n := |value|;
    CanAddWithoutWrap(p, 2);
    var header := AddU16Spec(st, n);
    assert header == Put(st, LittleEndian16(n));
    if value != [] {
      CanAddWithoutWrap(p, n + 2);
      var w := Put(header, value);
      assert AddStringSpec(st, value) == w;
      assert w.buf[p] == header.buf[p] && w.buf[p + 1] == header.buf[p + 1];
      assert w.buf[p..p + 2] == header.buf[p..p + 2];
    }
  }

  /** A length-prefixed string laid out at `p` reads back from `p` with getString(0). */
  lemma {:induction false} StringReadsBack(w: MsgState, p: uint16, oldLength: uint16, value: Bytes)
    requires WellFormed(w) && |value| <= NETWORKMESSAGE_MAXSIZE
    requires p <= oldLength + INITIAL_BUFFER_POSITION
    requires w.position == p + 2 + |value| < MAX_BODY_LENGTH
    requires w.length == oldLength + |value| + 2
    requires w.buf[p..p + 2] == LittleEndian16(|value|)
    requires w.buf[p + 2..p + 2 + |value|] == value
    ensures GetStringSpec(w.(position := p), 0) == (value, w)
  {
    var rewound := w.(position := p);
    ReadU16Back(rewound, |value|);
    var st1 := rewound.(position := p + 2);
    assert CanReadAt(st1.position, st1.length, |value|) && st1.position + |value| <= |st1.buf|;
    assert st1.(position := st1.position + |value|) == w;
  }

  /** The two bytes of a 16-bit value, read back where they were written. */
  lemma ReadU16Back(w: MsgState, v: uint16)
    requires WellFormed(w)
    requires w.position + 2 <= |w.buf| && CanReadAt(w.position, w.length, 2)
    requires w.buf[w.position..w.position + 2] == LittleEndian16(v)
    ensures GetU16Spec(w) == (v, w.(position := w.position + 2))
  {
    assert w.buf[w.position] == LittleEndian16(v)[0];
    assert w.buf[w.position + 1] == LittleEndian16(v)[1];
  }

  /** append followed by reading back at the old position yields the other message's payload. */
  lemma {:induction false} AppendCopiesPayload(st: MsgState, other: MsgState)
    requires WellFormed(st) && WellFormed(other)
    requires CanAddAt(st.position, other.length)
    ensures var r := AppendSpec(st, other);
      r.position == st.position + other.length &&
      r.buf[st.position..r.position] == other.buf[INITIAL_BUFFER_POSITION..INITIAL_BUFFER_POSITION + other.length]
  {
    CanAddWithoutWrap(st.position, other.length);
  }

  /** decodeHeader returns the little-endian value of the two bytes at the position and
      moves the position by four; with fewer than two readable bytes it changes nothing. */
  lemma DecodeHeaderOutcome(st: MsgState)
    requires WellFormed(st)
    ensures var (h, r) := DecodeHeaderSpec(st);
      (!CanReadAt(st.position, st.length, 2) ==> h == 0 && r == st) &&
      (CanReadAt(st.position, st.length, 2) && st.position + 1 < |st.buf| ==>
         h == FromLittleEndian16(st.buf[st.position], st.buf[st.position + 1]) && r.position == st.position + 4)
  {
  }

  // ---------------------------------------------------------------- findings

  /** As written, getString copies `stringLen` bytes once canRead holds, and canRead compares only
      with the logical length. A length larger than the array lets the copy run past its end:
      here 100 bytes at position 24580 of a 24590-byte array. */
  lemma CanReadIgnoresCapacity()
    ensures CanReadAt(24580, 0xFFFF, 100) && 100 <= NETWORKMESSAGE_MAXSIZE
    ensures 24580 + 100 > NETWORKMESSAGE_MAXSIZE
  {
  }

  /** The corrected readers never index outside the array, however large position, length
      or the requested size are. */
  lemma {:induction false} CorrectedReadsStayInBuffer(st: MsgState, stringLen: uint16)
    requires WellFormed(st)
    ensures var (s, r) := GetStringSpec(st, stringLen);
      r.position <= |st.buf| || r.position == (if stringLen == 0 then GetU16Spec(st).1 else st).position
    ensures var (s, r) := GetStringSpec(st, stringLen);
      s != [] ==> (if stringLen == 0 then GetU16Spec(st).1 else st).position + |s| <= |st.buf|
  {
  }

  /** As written, addPaddingBytes has only canAdd as guard, computed in size_t: n = 2^64 - 8 at
      position 8 wraps to 0 and passes, and std::fill would then write far past the array. */
  lemma PaddingGuardWraps()
    ensures CanAddAt(8, 0x1_0000_0000_0000_0000 - 8)
    ensures 8 + (0x1_0000_0000_0000_0000 - 8) > NETWORKMESSAGE_MAXSIZE
  {
  }

  /** With the added maximum-size check, padding writes exactly n bytes of 0x33 inside the body. */
  lemma {:induction false} CorrectedPaddingStaysInBody(st: MsgState, n: uint64)
    requires WellFormed(st)
    ensures var r := AddPaddingBytesSpec(st, n);
      r == st || (r.position == st.position + n < MAX_BODY_LENGTH &&
                  forall i :: st.position <= i < st.position + n ==> r.buf[i] == PADDING_BYTE)
  {
    if CanAddAt(st.position, n) && n <= NETWORKMESSAGE_MAXSIZE {
      CanAddWithoutWrap(st.position, n);
      var r := AddPaddingBytesSpec(st, n);
      forall i | st.position <= i < st.position + n ensures r.buf[i] == PADDING_BYTE {
        assert r.buf[st.position + (i - st.position)] == seq(n, _ => PADDING_BYTE)[i - st.position];
      }
    }
  }

  // ---------------------------------------------------------------- the message object

  class NetworkMessage {
    var buffer: array<uint8>
    var position: uint16
    var length: uint16

    ghost predicate Valid()
      reads this
    {
      buffer.Length == NETWORKMESSAGE_MAXSIZE
    }

    function State(): (st: MsgState)
      reads this, buffer
      requires Valid()
      ensures WellFormed(st)
    {
      MsgState(buffer[..], position, length)
    }

    /** A fresh message: zeroed buffer, position INITIAL_BUFFER_POSITION, length 0. */
    constructor ()
      ensures Valid() && fresh(buffer)
      ensures State() == MsgState(seq(NETWORKMESSAGE_MAXSIZE, _ => 0), INITIAL_BUFFER_POSITION as uint16, 0)
    {
      buffer := new uint8[NETWORKMESSAGE_MAXSIZE](_ => 0);
      position := INITIAL_BUFFER_POSITION as uint16;
      length := 0;
    }

    predicate CanAdd(size: uint64)
      reads this
    {
      CanAddAt(position, size)
    }

    predicate CanRead(size: int)
      reads this
    {
      CanReadAt(position, length, size)
    }

    /** The in-place write shared by every writer (memcpy, std::fill, ranges::copy). */
    method Write(bytes: Bytes)
      requires Valid()
      requires position + |bytes| < MAX_BODY_LENGTH
      modifies this, buffer
      ensures Valid() && buffer == old(buffer)
      ensures State() == Put(old(State()), bytes)
    {
      var p := position;
      forall i | 0 <= i < |bytes| {
        buffer[p + i] := bytes[i];
      }
      assert buffer[..] == Overwrite(old(buffer[..]), p, bytes);
      position := position + |bytes|;
      length := ToU16(length + |bytes|);
    }

    method AddByte(value: uint8)
      requires Valid()
      modifies this, buffer
      ensures Valid() && buffer == old(buffer)
      ensures State() == AddByteSpec(old(State()), value)
    {
      if !CanAdd(1) {
        return;
      }
      Write([value]);
    }

    method AddU16(value: uint16)
      requires Valid()
      modifies this, buffer
      ensures Valid() && buffer == old(buffer)
      ensures State() == AddU16Spec(old(State()), value)
    {
      if !CanAdd(2) {
        return;
      }
      Write(LittleEndian16(value));
    }

    method AddBytes(bytes: Option<Bytes>, size: uint64)
      requires Valid()
      requires bytes.Some? ==> size <= |bytes.value|
      modifies this, buffer
      ensures Valid() && buffer == old(buffer)
      ensures State() == AddBytesSpec(old(State()), bytes, size)
    {
      if bytes.None? {
        return;
      }
      if !CanAdd(size) {
        return;
      }
      if size > NETWORKMESSAGE_MAXSIZE {
        return;
      }
      CanAddWithoutWrap(position, size);
      Write(bytes.value[..size]);
    }

    method AddPaddingBytes(n: uint64)
      requires Valid()
      modifies this, buffer
      ensures Valid() && buffer == old(buffer)
      ensures State() == AddPaddingBytesSpec(old(State()), n)
    {
      if !CanAdd(n) || n > NETWORKMESSAGE_MAXSIZE {
        return;
      }
      CanAddWithoutWrap(position, n);
      Write(seq(n, _ => PADDING_BYTE));
    }

    method AddString(value: Bytes)
      requires Valid()
      requires |value| < 0x1_0000_0000_0000_0000
      modifies this, buffer
      ensures Valid() && buffer == old(buffer)
      ensures State() == AddStringSpec(old(State()), value)
    {
      if |value| == 0 {
        AddU16(0);
        return;
      }
      if !CanAdd(ToU64(|value| + 2)) {
        return;
      }
      if |value| > NETWORKMESSAGE_MAXSIZE {
        return;
      }
      CanAddWithoutWrap(position, |value| + 2);
      AddU16(|value|);
      Write(value);
    }

    method AddPosition(pos: Position)
      requires Valid()
      modifies this, buffer
      ensures Valid() && buffer == old(buffer)
      ensures State() == AddPositionSpec(old(State()), pos)
    {
      AddU16(pos.x);
      AddU16(pos.y);
      AddByte(pos.z);
    }

    method Append(other: NetworkMessage)
      requires Valid() && other.Valid()
      modifies this, buffer
      ensures Valid() && buffer == old(buffer)
      ensures State() == AppendSpec(old(State()), old(other.State()))
    {
      var n := other.length;
      if !CanAdd(n) {
        return;
      }
      CanAddWithoutWrap(position, n);
      var payload := other.buffer[INITIAL_BUFFER_POSITION..INITIAL_BUFFER_POSITION + n];
      Write(payload);
    }

    method GetByte() returns (b: uint8)
      requires Valid()
      modifies this
      ensures Valid()
      ensures (b, State()) == GetByteSpec(old(State()))
    {
      if !CanRead(1) {
        return 0;
      }
      if position == 0 {
        return 0;
      }
      if position as int >= buffer.Length {
        position := ToU16(position + 1);
        return 0;
      }
      b := buffer[position];
      position := position + 1;
    }

    method GetPreviousByte() returns (b: uint8)
      requires Valid()
      modifies this
      ensures Valid()
      ensures (b, State()) == GetPreviousByteSpec(old(State()))
    {
      if position == 0 {
        return 0;
      }
      position := position - 1;
      if position as int >= buffer.Length {
        return 0;
      }
      b := buffer[position];
    }

    method GetU16() returns (v: uint16)
      requires Valid()
      modifies this
      ensures Valid()
      ensures (v, State()) == GetU16Spec(old(State()))
    {
      if !CanRead(2) || position + 2 > buffer.Length {
        return 0;
      }
      v := FromLittleEndian16(buffer[position], buffer[position + 1]);
      position := position + 2;
    }

    method DecodeHeader() returns (h: int32)
      requires Valid()
      modifies this
      ensures Valid()
      ensures (h, State()) == DecodeHeaderSpec(old(State()))
    {
      if !CanRead(2) {
        return 0;
      }
      if position + 1 < buffer.Length {
        h := FromLittleEndian16(buffer[position], buffer[position + 1]);
        position := position + 4;
        return h;
      }
      return 0;
    }

    method GetString(stringLen: uint16) returns (s: Bytes)
      requires Valid()
      modifies this
      ensures Valid()
      ensures (s, State()) == GetStringSpec(old(State()), stringLen)
    {
      var len := stringLen;
      if len == 0 {
        len := GetU16();
      }
      if !CanRead(len) {
        return [];
      }
      if len > NETWORKMESSAGE_MAXSIZE {
        return [];
      }
      if position + len > buffer.Length {
        return [];
      }
      s := buffer[position..position + len];
      position := position + len;
    }

    method GetPosition() returns (pos: Position)
      requires Valid()
      modifies this
      ensures Valid()
      ensures (pos, State()) == GetPositionSpec(old(State()))
    {
      var x := GetU16();
      var y := GetU16();
      var z := GetByte();
      pos := Position(x, y, z);
    }

    method SkipBytes(count: int16)
      requires Valid()
      modifies this
      ensures Valid()
      ensures State() == SkipBytesSpec(old(State()), count)
    {
      position := ToU16(position + count);
    }

    method SetLength(newLength: uint16)
      requires Valid()
      modifies this
      ensures Valid()
      ensures State() == old(State()).(length := newLength)
    {
      length := newLength;
    }

    method SetBufferPosition(newPosition: uint16)
      requires Valid()
      modifies this
      ensures Valid()
      ensures State() == old(State()).(position := newPosition)
    {
      position := newPosition;
    }

    method GetLengthHeader() returns (h: uint16)
      requires Valid()
      ensures h == LengthHeader(State())
    {
      h := FromLittleEndian16(buffer[0], buffer[1]);
    }

    /** getBodyBuffer: moves the position to 2 and yields the offset of the body. */
    method GetBodyBuffer() returns (offset: nat)
      requires Valid()
      modifies this
      ensures Valid()
      ensures offset == HEADER_LENGTH
      ensures State() == old(State()).(position := 2)
    {
      position := 2;
      offset := HEADER_LENGTH;
    }
  }

  /** The round trip on the object itself: a string added and then read back from the
      position it was written at comes back unchanged. */
  method AddThenGetString(msg: NetworkMessage, value: Bytes) returns (s: Bytes)
    requires msg.Valid()
    requires msg.position <= msg.length + INITIAL_BUFFER_POSITION
    requires msg.length + |value| + 2 < 0x1_0000
    requires if value == [] then msg.CanAdd(2)
             else msg.CanAdd(|value| + 2) && |value| <= NETWORKMESSAGE_MAXSIZE
    modifies msg, msg.buffer
    ensures s == value
  {
    var start := msg.position;
    ghost var before := msg.State();
    msg.AddString(value);
    ghost var written := msg.State();
    msg.SetBufferPosition(start);
    s := msg.GetString(0);
    StringRoundTrip(before, value);
  }
}
