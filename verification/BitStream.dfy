/** Bits packed into bytes and unpacked again. Words and bytes are their bits, lowest first. */
module BitStreams {
  import opened CommonTypes

  type Octet = b: seq<bool> | |b| == 8 witness seq(8, i => false)

  type Word32 = w: seq<bool> | |w| == 32 witness seq(32, i => false)

  type Word64 = w: seq<bool> | |w| == 64 witness seq(64, i => false)

  // ---- Bit sequences ----

  /** The bits of a string of bytes, lowest bit of each byte first. */
  function BitsOf(bytes: seq<Octet>): (bits: seq<bool>)
    ensures |bits| == 8 * |bytes|
  {
    if |bytes| == 0 then [] else bytes[0] + BitsOf(bytes[1..])
  }

  lemma {:induction false} BitsOfConcat(a: seq<Octet>, b: seq<Octet>)
    ensures BitsOf(a + b) == BitsOf(a) + BitsOf(b)
  {
    if |a| == 0 {
      assert a + b == b;
    } else {
      assert (a + b)[1..] == a[1..] + b;
      BitsOfConcat(a[1..], b);
    }
  }

  lemma BitsOfOne(a: Octet)
    ensures BitsOf([a]) == a
  {
  }

  /** Every bit of every byte is where it belongs. */
  lemma {:induction false} BitsOfAt(bytes: seq<Octet>, k: nat, i: nat)
    requires k < |bytes| && i < 8
    ensures BitsOf(bytes)[8 * k + i] == bytes[k][i]
  {
    if k > 0 {
      BitsOfAt(bytes[1..], k - 1, i);
    }
  }

  /** The highest bit of each byte first. */
  function Reversed(a: Octet): (r: Octet)
    ensures forall i :: 0 <= i < 8 ==> r[i] == a[7 - i]
  {
    seq(8, i requires 0 <= i < 8 => a[7 - i])
  }

  function ReversedAll(bytes: seq<Octet>): seq<Octet> {
    seq(|bytes|, i requires 0 <= i < |bytes| => Reversed(bytes[i]))
  }

  lemma ReversedAt(bytes: seq<Octet>, k: nat, i: nat)
    requires k < |bytes| && i < 8
    ensures |ReversedAll(bytes)| == |bytes| && BitsOf(ReversedAll(bytes))[8 * k + i] == bytes[k][7 - i]
  {
    hide BitsOf;
    BitsOfAt(ReversedAll(bytes), k, i);
  }

  function Zeroes(n: nat): (z: seq<bool>)
    ensures |z| == n && forall i :: 0 <= i < n ==> !z[i]
  {
    seq(n, i => false)
  }

  /** Zero bits up to the next byte boundary. */
  function Padded(bits: seq<bool>): (p: seq<bool>)
    ensures |p| % 8 == 0 && |p| < |bits| + 8 && bits <= p
    ensures forall i :: |bits| <= i < |p| ==> !p[i]
  {
    bits + Zeroes((8 - |bits| % 8) % 8)
  }

  // ---- The streams underneath ----

  /** A stream that takes bytes as long as there is room. */
  class ByteSink {
    var bytes: seq<Octet>
    const room: nat
    var error: bool

    constructor (room: nat)
      ensures bytes == [] && !error && this.room == room
    {
      bytes, error := [], false;
      this.room := room;
    }

    /** `write_or_error` */
    method WriteOrError(data: seq<Octet>) returns (ok: bool)
      modifies this
      ensures ok <==> |old(bytes)| + |data| <= room
      ensures ok ==> bytes == old(bytes) + data && error == old(error)
      ensures !ok ==> bytes == old(bytes) && error
    {
      ok := |bytes| + |data| <= room;
      if ok {
        bytes := bytes + data;
      } else {
        error := true;
      }
    }
  }

  /** A stream that gives out bytes one at a time. */
  class ByteSource {
    const bytes: seq<Octet>
    var offset: nat
    var error: bool

    constructor (bytes: seq<Octet>)
      ensures this.bytes == bytes && offset == 0 && !error
    {
      this.bytes := bytes;
      offset, error := 0, false;
    }

    ghost predicate Valid()
      reads this
    {
      offset <= |bytes|
    }

    /** `>>` into an optional byte: on failure it is given a value too, whatever was in the temporary. */
    method ReadByte() returns (temporary: Octet)
      requires Valid()
      modifies this
      ensures Valid()
      ensures old(offset) < |bytes| ==>
        temporary == bytes[old(offset)] && offset == old(offset) + 1 && error == old(error)
      ensures old(offset) == |bytes| ==> offset == old(offset) && error
    {
      temporary := *;
      if offset < |bytes| {
        temporary := bytes[offset];
        offset := offset + 1;
      } else {
        error := true;
      }
    }
  }

  // ---- Writing ----

  /** The bits of a started byte. */
  function Started(next: Option<Octet>, bitOffset: nat): seq<bool>
    requires next.Some? ==> bitOffset <= 8
  {
    if next.Some? then next.value[..bitOffset] else []
  }

  /** `next | (bit << bitOffset)` */
  function WithBit(a: Octet, bitOffset: nat, bit: bool): Octet
    requires bitOffset < 8
  {
    a[bitOffset := a[bitOffset] || bit]
  }

  /** Whole bytes followed by the started one are the written bits, padded. */
  lemma AlignedBits(bytes: seq<Octet>, next: Option<Octet>, bitOffset: nat)
    requires next.Some? ==> 0 < bitOffset <= 7 && forall i :: bitOffset <= i < 8 ==> !next.value[i]
    ensures var bits := BitsOf(bytes) + Started(next, bitOffset);
      && Padded(bits) == BitsOf(bytes + if next.Some? then [next.value] else [])
      && |Padded(bits)| == 8 * (|bytes| + if next.Some? then 1 else 0)
  {
    if next.Some? {
      var last := next.value;
      BitsOfConcat(bytes, [last]);
      BitsOfOne(last);
      assert last == last[..bitOffset] + Zeroes(8 - bitOffset);
      assert |BitsOf(bytes) + Started(next, bitOffset)| % 8 == bitOffset;
    } else {
      assert bytes + [] == bytes;
    }
  }

  class OutputBitStream {
    var nextByte: Option<Octet>
    var bitOffset: nat
    var fatal: bool
    const stream: ByteSink

    constructor (stream: ByteSink)
      ensures this.stream == stream && Settled() && nextByte == None && Written() == BitsOf(stream.bytes)
    {
      nextByte, bitOffset, fatal := None, 0, false;
      this.stream := stream;
    }

    /** The bits of the started byte that are not written yet are clear. */
    ghost predicate Valid()
      reads this
    {
      nextByte.Some? ==> bitOffset <= 7 && forall i :: bitOffset <= i < 8 ==> !nextByte.value[i]
    }

    /** Between calls, a started byte has at least one bit. */
    ghost predicate Settled()
      reads this
    {
      Valid() && (nextByte.Some? ==> bitOffset > 0)
    }

    /** Everything written so far. */
    ghost function Written(): seq<bool>
      requires Valid()
      reads this, stream
    {
      BitsOf(stream.bytes) + Started(nextByte, bitOffset)
    }

    /** One bit into the started byte, which goes to the stream when it is full. */
    method WriteOneBit(bit: bool)
      requires Valid() && nextByte.Some?
      modifies this, stream
      ensures Valid() && (nextByte.Some? ==> bitOffset > 0) && (old(stream.error) ==> stream.error)
      ensures !stream.error ==> Written() == old(Written()) + [bit]
      ensures !old(stream.error) && |old(Written())| + 1 <= 8 * stream.room ==> !stream.error
      ensures fatal == old(fatal)
    {
      ghost var before := nextByte.value;
      nextByte := Some(WithBit(nextByte.value, bitOffset, bit));
      ghost var after := nextByte.value;
      assert after[..bitOffset + 1] == before[..bitOffset] + [bit];
      bitOffset := bitOffset + 1;
      if bitOffset == 8 {
        ghost var bytes := stream.bytes;
        var _ := stream.WriteOrError([nextByte.value]);
        BitsOfConcat(bytes, [after]);
        BitsOfOne(after);
        assert after[..8] == after;
        nextByte := None;
      }
    }

    /** Whole bytes, when no byte is started. */
    method WriteWhole(bits: seq<bool>)
      requires Valid() && nextByte == None && (|bits| == 8 || |bits| == 16 || |bits| == 32)
      modifies stream
      ensures Valid() && (old(stream.error) ==> stream.error)
      ensures !stream.error ==> Written() == old(Written()) + bits
      ensures !old(stream.error) && |old(Written())| + |bits| <= 8 * stream.room ==> !stream.error
    {
      var data := Bytes(bits);
      BitsOfBytes(bits);
      BitsOfConcat(stream.bytes, data);
      var _ := stream.WriteOrError(data);
    }

    /** One round of `write_bits`: a bit, two whole bytes, one, or a byte to be started. */
    method WriteSome(bits: Word32, nWritten: nat, count: nat) returns (n: nat)
      requires Valid() && !stream.error && nWritten < count <= 32
      modifies this, stream
      ensures Valid() && nWritten + n <= count && fatal == old(fatal)
      ensures n == 0 ==> !stream.error && old(nextByte) == None && nextByte.Some?
      ensures n > 0 && nextByte.Some? ==> bitOffset > 0
      ensures !stream.error ==> Written() == old(Written()) + bits[nWritten..nWritten + n]
      ensures |old(Written())| + n <= 8 * stream.room ==> !stream.error
    {
      if nextByte.Some? {
        WriteOneBit(bits[nWritten]);
        n := 1;
      } else if count - nWritten >= 16 {
        WriteWhole(bits[nWritten..nWritten + 16]);
        n := 16;
      } else if count - nWritten >= 8 {
        WriteWhole(bits[nWritten..nWritten + 8]);
        n := 8;
      } else {
        bitOffset := 0;
        nextByte := Some(Zeroes(8));
        n := 0;
      }
    }

    /** The loop of `write_bits`. */
    method WriteParts(bits: Word32, count: nat)
      requires Settled() && count <= 32
      modifies this, stream
      ensures Settled() && (old(stream.error) ==> stream.error)
      ensures !stream.error ==> Written() == old(Written()) + bits[..count]
      ensures !old(stream.error) && |old(Written())| + count <= 8 * stream.room ==> !stream.error
      ensures fatal ==> old(fatal) || stream.error
    {
      hide BitsOf, Started;
      ghost var was := Written();
      var nWritten := 0;
      assert was + bits[..0] == was;
      while nWritten < count
        invariant nWritten <= count && Valid() && (old(stream.error) ==> stream.error)
        invariant nextByte.Some? && bitOffset == 0 ==> nWritten < count && !stream.error
        invariant !stream.error ==> Written() == was + bits[..nWritten]
        invariant !old(stream.error) && |was| + count <= 8 * stream.room ==> !stream.error
        invariant fatal ==> old(fatal) || stream.error
        decreases count - nWritten, if nextByte.Some? then 0 else 1
      {
        if stream.error {
          fatal := true;
          return;
        }
        var n := WriteSome(bits, nWritten, count);
        assert bits[..nWritten + n] == bits[..nWritten] + bits[nWritten..nWritten + n];
        nWritten := nWritten + n;
      }
    }

    /** `write_bits`: the lowest `count` bits of a word, lowest first. */
    method WriteBits(bits: Word32, count: nat)
      requires Settled() && count <= 32
      modifies this, stream
      ensures Settled() && (old(stream.error) ==> stream.error)
      ensures !stream.error ==> Written() == old(Written()) + bits[..count]
      ensures !old(stream.error) && |old(Written())| + count <= 8 * stream.room ==> !stream.error
      ensures fatal ==> old(fatal) || stream.error
    {
      if count == 32 && nextByte == None {
        WriteWhole(bits);
        assert bits[..32] == bits;
      } else {
        WriteParts(bits, count);
      }
    }

    /** `align_to_byte_boundary`: the rest of a started byte is filled with zeroes. */
    method AlignToByteBoundary()
      requires Settled()
      modifies this, stream
      ensures Settled() && nextByte == None && (old(stream.error) ==> stream.error)
      ensures !stream.error ==> BitsOf(stream.bytes) == Padded(old(Written()))
      ensures !old(stream.error) && |Padded(old(Written()))| <= 8 * stream.room ==> !stream.error
      ensures old(nextByte).Some? && |old(stream.bytes)| + 1 > stream.room ==> fatal
    {
      hide BitsOf, Padded, Started;
      AlignedBits(stream.bytes, nextByte, bitOffset);
      if nextByte.Some? {
        var ok := stream.WriteOrError([nextByte.value]);
        if !ok {
          fatal := true;
        }
        nextByte := None;
      }
    }

    /** A sequence of writes. */
    method WriteAll(writes: seq<(Word32, nat)>)
      requires Settled() && forall i :: 0 <= i < |writes| ==> writes[i].1 <= 32
      modifies this, stream
      ensures Settled() && (old(stream.error) ==> stream.error)
      ensures !stream.error ==> Written() == old(Written()) + Payload(writes)
      ensures !old(stream.error) && |old(Written())| + |Payload(writes)| <= 8 * stream.room ==> !stream.error
    {
      hide BitsOf, Started;
      ghost var was := Written();
      assert was + Payload(writes[..0]) == was;
      hide Payload;
      for i := 0 to |writes|
        invariant Settled() && (old(stream.error) ==> stream.error)
        invariant !stream.error ==> Written() == was + Payload(writes[..i])
        invariant !old(stream.error) && |was| + |Payload(writes)| <= 8 * stream.room ==> !stream.error
      {
        PayloadStep(writes, i);
        PayloadMonotone(writes, i + 1);
        WriteBits(writes[i].0, writes[i].1);
      }
      assert writes[..|writes|] == writes;
    }
  }

  /** Bits in groups of eight. */
  function Bytes(bits: seq<bool>): (r: seq<Octet>)
    requires |bits| % 8 == 0
    ensures 8 * |r| == |bits|
  {
    if |bits| == 0 then [] else [bits[..8]] + Bytes(bits[8..])
  }

  lemma {:induction false} BitsOfBytes(bits: seq<bool>)
    requires |bits| % 8 == 0
    ensures BitsOf(Bytes(bits)) == bits
  {
    if |bits| > 0 {
      BitsOfBytes(bits[8..]);
      BitsOfConcat([bits[..8]], Bytes(bits[8..]));
      assert bits == bits[..8] + bits[8..];
    }
  }

  /** The bits of a sequence of writes, one after the other. */
  function Payload(writes: seq<(Word32, nat)>): seq<bool>
    requires forall i :: 0 <= i < |writes| ==> writes[i].1 <= 32
  {
    if |writes| == 0 then []
    else Payload(writes[..|writes| - 1]) + writes[|writes| - 1].0[..writes[|writes| - 1].1]
  }

  lemma PayloadStep(writes: seq<(Word32, nat)>, i: nat)
    requires i < |writes| && forall k :: 0 <= k < |writes| ==> writes[k].1 <= 32
    ensures Payload(writes[..i + 1]) == Payload(writes[..i]) + writes[i].0[..writes[i].1]
  {
    assert writes[..i + 1][..i] == writes[..i];
  }

  lemma {:induction false} PayloadMonotone(writes: seq<(Word32, nat)>, i: nat)
    requires i <= |writes| && forall k :: 0 <= k < |writes| ==> writes[k].1 <= 32
    ensures |Payload(writes[..i])| <= |Payload(writes)|
  {
    if i == |writes| {
      assert writes[..i] == writes;
    } else {
      PayloadMonotone(writes[..|writes| - 1], i);
      assert writes[..|writes| - 1][..i] == writes[..i];
    }
  }

  // ---- Reading ----

  /** The bits of a byte that has been read in part. */
  function Left(next: Option<Octet>, bitOffset: nat): seq<bool>
    requires next.Some? ==> bitOffset <= 8
  {
    if next.Some? then next.value[bitOffset..] else []
  }

  /** A word with the given lowest bits. */
  function WordOf(bits: seq<bool>): (w: Word64)
    requires |bits| <= 64
    ensures w[..|bits|] == bits
  {
    bits + Zeroes(64 - |bits|)
  }

  /** `result | (bit << n)` */
  function WithBitAt(w: Word64, n: nat, bit: bool): Word64
    requires n < 64
  {
    w[n := w[n] || bit]
  }

  lemma WordGrows(bits: seq<bool>, bit: bool)
    requires |bits| < 64
    ensures WithBitAt(WordOf(bits), |bits|, bit) == WordOf(bits + [bit])
  {
  }

  /** `(w << k) | low`; what is shifted out is lost */
  function ShiftedIn(w: Word64, low: seq<bool>): Word64
    requires |low| <= 64
  {
    low + w[..64 - |low|]
  }

  /** The number whose highest bits come first, as far as its lowest 64 bits. */
  function BigEndianWord(bits: seq<bool>): Word64 {
    seq(64, i requires 0 <= i < 64 => i < |bits| && bits[|bits| - 1 - i])
  }

  lemma BigEndianGrows(bits: seq<bool>, more: seq<bool>, low: seq<bool>)
    requires |low| == |more| <= 64
    requires forall i :: 0 <= i < |more| ==> low[i] == more[|more| - 1 - i]
    ensures ShiftedIn(BigEndianWord(bits), low) == BigEndianWord(bits + more)
  {
    var w, w' := ShiftedIn(BigEndianWord(bits), low), BigEndianWord(bits + more);
    forall i | 0 <= i < 64 ensures w[i] == w'[i] {
    }
  }

  lemma BitsOfWord(rest: seq<bool>, count: nat)
    requires count <= |rest| && count <= 64
    ensures forall i :: 0 <= i < 64 ==> (WordOf(rest[..count])[i] <==> i < count && rest[i])
  {
  }

  lemma BitsOfBigEndianWord(rest: seq<bool>, count: nat)
    requires count <= |rest|
    ensures forall i :: 0 <= i < 64 ==> (BigEndianWord(rest[..count])[i] <==> i < count && rest[count - 1 - i])
  {
  }

  lemma EmptyWord()
    ensures WordOf([]) == Zeroes(64) == BigEndianWord([])
  {
  }

  /** All but the first `n` bits are left. */
  predicate Taken(rest: seq<bool>, left: seq<bool>, n: nat) {
    n <= |rest| && left == rest[n..]
  }

  lemma OneTaken(rest: seq<bool>, n: nat)
    requires n < |rest|
    ensures rest[n..][1..] == rest[n + 1..] && rest[..n + 1] == rest[..n] + [rest[n..][0]]
  {
  }

  lemma EightTaken(rest: seq<bool>, n: nat)
    requires n + 8 <= |rest|
    ensures rest[n..][8..] == rest[n + 8..] && rest[..n + 8] == rest[..n] + rest[n..][..8]
  {
  }

  class InputBitStream {
    var nextByte: Option<Octet>
    var bitOffset: nat
    var fatal: bool
    const stream: ByteSource

    constructor (stream: ByteSource)
      requires stream.Valid()
      ensures this.stream == stream && Valid() && nextByte == None && !fatal
    {
      nextByte, bitOffset, fatal := None, 0, false;
      this.stream := stream;
    }

    ghost predicate Valid()
      reads this, stream
    {
      stream.Valid() && (nextByte.Some? ==> bitOffset <= 7)
    }

    /** The bits still to come, lowest bit of each byte first. */
    ghost function Rest(): seq<bool>
      requires Valid()
      reads this, stream
    {
      Left(nextByte, bitOffset) + BitsOf(stream.bytes[stream.offset..])
    }

    /** The bits still to come, highest bit of each byte first. */
    ghost function BigEndianRest(): seq<bool>
      requires Valid()
      reads this, stream
    {
      Left(if nextByte.Some? then Some(Reversed(nextByte.value)) else None, bitOffset)
      + BitsOf(ReversedAll(stream.bytes[stream.offset..]))
    }

    /** Where the bits of the bytes still to come are, and in which order. */
    lemma RestAt(k: nat, i: nat)
      requires Valid() && stream.offset + k < |stream.bytes| && i < 8
      ensures var n := (if nextByte.Some? then 8 - bitOffset else 0) + 8 * k;
        && Rest()[n + i] == stream.bytes[stream.offset + k][i]
        && BigEndianRest()[n + i] == stream.bytes[stream.offset + k][7 - i]
    {
      var rest := stream.bytes[stream.offset..];
      hide BitsOf, Reversed, ReversedAll;
      BitsOfAt(rest, k, i);
      ReversedAt(rest, k, i);
    }

    /** And those of the byte that has been fetched. */
    lemma StartedRestAt(i: nat)
      requires Valid() && nextByte.Some? && bitOffset <= i < 8
      ensures Rest()[i - bitOffset] == nextByte.value[i]
      ensures BigEndianRest()[i - bitOffset] == nextByte.value[7 - i]
    {
      hide BitsOf, ReversedAll;
    }

    /** The next byte, or the error that there is none. */
    method Fetch()
      requires Valid() && nextByte == None && !stream.error
      modifies this, stream
      ensures Valid() && nextByte.Some? && bitOffset == 0 && fatal == old(fatal)
      ensures stream.error <==> |old(Rest())| == 0
      ensures stream.error <==> |old(BigEndianRest())| == 0
      ensures !stream.error ==> Rest() == old(Rest()) && BigEndianRest() == old(BigEndianRest())
    {
      ghost var at := stream.offset;
      if at < |stream.bytes| {
        assert stream.bytes[at..] == [stream.bytes[at]] + stream.bytes[at + 1..];
        assert ReversedAll(stream.bytes[at..]) == [Reversed(stream.bytes[at])] + ReversedAll(stream.bytes[at + 1..]);
      }
      var temporary := stream.ReadByte();
      nextByte := Some(temporary);
      bitOffset := 0;
    }

    /** `if (m_bit_offset++ == 7) m_next_byte.clear();` */
    method Advance()
      requires Valid() && nextByte.Some?
      modifies this
      ensures Valid() && fatal == old(fatal)
      ensures Rest() == old(Rest())[1..] && BigEndianRest() == old(BigEndianRest())[1..]
    {
      bitOffset := bitOffset + 1;
      if bitOffset == 8 {
        nextByte := None;
      }
    }

    /** One bit of the started byte, counted from its lowest. */
    method TakeBit() returns (bit: bool)
      requires Valid() && nextByte.Some?
      modifies this
      ensures Valid() && fatal == old(fatal)
      ensures |old(Rest())| > 0 && bit == old(Rest())[0] && Rest() == old(Rest())[1..]
    {
      bit := nextByte.value[bitOffset];
      Advance();
    }

    /** One bit of the started byte, counted from its highest. */
    method TakeHighBit() returns (bit: bool)
      requires Valid() && nextByte.Some?
      modifies this
      ensures Valid() && fatal == old(fatal)
      ensures |old(BigEndianRest())| > 0
      ensures bit == old(BigEndianRest())[0] && BigEndianRest() == old(BigEndianRest())[1..]
    {
      bit := nextByte.value[7 - bitOffset];
      Advance();
    }

    /** A whole byte at once. */
    method TakeByte() returns (whole: Octet)
      requires Valid() && nextByte.Some? && bitOffset == 0
      modifies this
      ensures Valid() && fatal == old(fatal)
      ensures |old(BigEndianRest())| >= 8 && Reversed(whole) == old(BigEndianRest())[..8]
      ensures BigEndianRest() == old(BigEndianRest())[8..]
    {
      whole := nextByte.value;
      nextByte := None;
    }

    /** One round of `read_bits`: a bit. */
    method TakeLow(result: Word64, nread: nat, ghost rest: seq<bool>) returns (result': Word64)
      requires Valid() && nextByte.Some? && nread < 64
      requires Taken(rest, Rest(), nread) && result == WordOf(rest[..nread])
      modifies this
      ensures Valid() && fatal == old(fatal)
      ensures Taken(rest, Rest(), nread + 1) && result' == WordOf(rest[..nread + 1])
    {
      hide Left, BitsOf, WithBitAt, WordOf;
      var bit := TakeBit();
      OneTaken(rest, nread);
      WordGrows(rest[..nread], bit);
      result' := WithBitAt(result, nread, bit);
    }

    /** The loop of `read_bits`. */
    method CollectBits(count: nat) returns (result: Word64)
      requires Valid() && count <= 31
      modifies this, stream
      ensures Valid()
      ensures count == 0 || (!old(stream.error) && count <= |old(Rest())|) ==>
        && result == WordOf(old(Rest())[..count]) && Rest() == old(Rest())[count..]
        && fatal == old(fatal) && stream.error == old(stream.error)
      ensures !(count == 0 || (!old(stream.error) && count <= |old(Rest())|)) ==>
        result == Zeroes(64) && fatal && stream.error
    {
      ghost var rest := Rest();
      result := Zeroes(64);
      var nread := 0;
      hide Left, BitsOf, WithBitAt, WordOf;
      EmptyWord();
      while nread < count
        invariant nread <= count && Valid() && fatal == old(fatal)
        invariant count == 0 ==> stream.error == old(stream.error)
        invariant old(stream.error) ==> stream.error
        invariant stream.error && nread == count ==> count == 0
        invariant stream.error && !old(stream.error) ==> count > |rest|
        invariant count == 0 || !stream.error ==> Taken(rest, Rest(), nread) && result == WordOf(rest[..nread])
        decreases count - nread, if nextByte.Some? then 0 else 1
      {
        if stream.error {
          fatal := true;
          return Zeroes(64);
        }
        if nextByte.Some? {
          result := TakeLow(result, nread, rest);
          nread := nread + 1;
        } else {
          Fetch();
        }
      }
    }

    /** `read_bits`, of at most 31 bits. */
    method ReadBits(count: nat) returns (result: Word64)
      requires Valid() && count <= 31
      modifies this, stream
      ensures Valid()
      ensures count == 0 || (!old(stream.error) && count <= |old(Rest())|) ==>
        && result == WordOf(old(Rest())[..count]) && Rest() == old(Rest())[count..]
        && (forall i :: 0 <= i < 64 ==> (result[i] <==> i < count && old(Rest())[i]))
        && fatal == old(fatal) && stream.error == old(stream.error)
      ensures !(count == 0 || (!old(stream.error) && count <= |old(Rest())|)) ==>
        result == Zeroes(64) && fatal && stream.error
    {
      ghost var rest := Rest();
      hide Left, BitsOf, WordOf;
      if count <= |rest| {
        BitsOfWord(rest, count);
      }
      result := CollectBits(count);
    }

    /** One round of `read_bits_big_endian`: a whole byte, or a bit. */
    method TakeBigEndian(result: Word64, nread: nat, count: nat, ghost rest: seq<bool>)
        returns (result': Word64, nread': nat)
      requires Valid() && nextByte.Some? && nread < count
      requires Taken(rest, BigEndianRest(), nread) && result == BigEndianWord(rest[..nread])
      modifies this
      ensures Valid() && fatal == old(fatal) && nread < nread' <= count
      ensures Taken(rest, BigEndianRest(), nread') && result' == BigEndianWord(rest[..nread'])
    {
      hide Left, BitsOf, Reversed, ReversedAll, ShiftedIn, BigEndianWord;
      if count - nread >= 8 && bitOffset == 0 {
        var whole := TakeByte();
        EightTaken(rest, nread);
        BigEndianGrows(rest[..nread], Reversed(whole), whole);
        result' := ShiftedIn(result, whole);
        nread' := nread + 8;
      } else {
        var bit := TakeHighBit();
        OneTaken(rest, nread);
        BigEndianGrows(rest[..nread], [bit], [bit]);
        result' := ShiftedIn(result, [bit]);
        nread' := nread + 1;
      }
    }

    /** The loop of `read_bits_big_endian`. */
    method CollectBigEndian(count: nat) returns (result: Word64)
      requires Valid()
      modifies this, stream
      ensures Valid()
      ensures count == 0 || (!old(stream.error) && count <= |old(BigEndianRest())|) ==>
        && result == BigEndianWord(old(BigEndianRest())[..count]) && BigEndianRest() == old(BigEndianRest())[count..]
        && fatal == old(fatal) && stream.error == old(stream.error)
      ensures !(count == 0 || (!old(stream.error) && count <= |old(BigEndianRest())|)) ==>
        result == Zeroes(64) && fatal && stream.error
    {
      ghost var rest := BigEndianRest();
      result := Zeroes(64);
      var nread := 0;
      hide Left, BitsOf, Reversed, ReversedAll, ShiftedIn, BigEndianWord;
      EmptyWord();
      while nread < count
        invariant nread <= count && Valid() && fatal == old(fatal)
        invariant count == 0 ==> stream.error == old(stream.error)
        invariant old(stream.error) ==> stream.error
        invariant stream.error && nread == count ==> count == 0
        invariant stream.error && !old(stream.error) ==> count > |rest|
        invariant count == 0 || !stream.error ==>
          Taken(rest, BigEndianRest(), nread) && result == BigEndianWord(rest[..nread])
        decreases count - nread, if nextByte.Some? then 0 else 1
      {
        if stream.error {
          fatal := true;
          return Zeroes(64);
        }
        if nextByte.Some? {
          result, nread := TakeBigEndian(result, nread, count, rest);
        } else {
          Fetch();
        }
      }
    }

    /** `read_bits_big_endian` */
    method ReadBitsBigEndian(count: nat) returns (result: Word64)
      requires Valid()
      modifies this, stream
      ensures Valid()
      ensures count == 0 || (!old(stream.error) && count <= |old(BigEndianRest())|) ==>
        && BigEndianRest() == old(BigEndianRest())[count..]
        && (forall i :: 0 <= i < 64 ==> (result[i] <==> i < count && old(BigEndianRest())[count - 1 - i]))
        && fatal == old(fatal) && stream.error == old(stream.error)
      ensures !(count == 0 || (!old(stream.error) && count <= |old(BigEndianRest())|)) ==>
        result == Zeroes(64) && fatal && stream.error
    {
      ghost var rest := BigEndianRest();
      hide Left, BitsOf, ReversedAll, BigEndianWord;
      if count <= |rest| {
        BitsOfBigEndianWord(rest, count);
      }
      result := CollectBigEndian(count);
    }

    /** `align_to_byte_boundary`: what is left of a started byte is skipped. */
    method AlignToByteBoundary()
      requires Valid()
      modifies this
      ensures Valid() && nextByte == None
      ensures Rest() == old(Rest())[|old(Left(nextByte, bitOffset))|..]
      ensures bitOffset > 0 || old(nextByte) == None ==> |old(Left(nextByte, bitOffset))| == |old(Rest())| % 8
    {
      if nextByte.Some? {
        nextByte := None;
      }
    }
  }

  // ---- There and back ----

  function Sum(sizes: seq<nat>): nat {
    if |sizes| == 0 then 0 else Sum(sizes[..|sizes| - 1]) + sizes[|sizes| - 1]
  }

  /** The bits of the words read, each of its own size, one after the other. */
  function Flattened(words: seq<Word64>, sizes: seq<nat>): seq<bool>
    requires |words| == |sizes| && forall i :: 0 <= i < |sizes| ==> sizes[i] <= 31
  {
    if |words| == 0 then []
    else Flattened(words[..|words| - 1], sizes[..|words| - 1]) + words[|words| - 1][..sizes[|words| - 1]]
  }

  lemma {:induction false} SumMonotone(sizes: seq<nat>, i: nat)
    requires i <= |sizes|
    ensures Sum(sizes[..i]) <= Sum(sizes)
  {
    if i == |sizes| {
      assert sizes[..i] == sizes;
    } else {
      SumMonotone(sizes[..|sizes| - 1], i);
      assert sizes[..|sizes| - 1][..i] == sizes[..i];
    }
  }

  lemma ReadStep(bits: seq<bool>, words: seq<Word64>, sizes: seq<nat>, i: nat, word: Word64)
    requires |words| == i < |sizes| && forall k :: 0 <= k < |sizes| ==> sizes[k] <= 31
    requires Sum(sizes[..i + 1]) <= |bits| && Sum(sizes[..i]) <= Sum(sizes[..i + 1])
    requires Flattened(words, sizes[..i]) == bits[..Sum(sizes[..i])]
    requires sizes[i] <= |bits| - Sum(sizes[..i]) && word == WordOf(bits[Sum(sizes[..i])..][..sizes[i]])
    ensures Sum(sizes[..i + 1]) == Sum(sizes[..i]) + sizes[i]
    ensures Flattened(words + [word], sizes[..i + 1]) == bits[..Sum(sizes[..i + 1])]
    ensures bits[Sum(sizes[..i])..][sizes[i]..] == bits[Sum(sizes[..i + 1])..]
  {
    hide WordOf;
    assert sizes[..i + 1][..i] == sizes[..i] && (words + [word])[..i] == words;
  }

  /**
   * Any writes, aligned at the end, read back as the same bits in pieces of any sizes up to 31,
   * as far as there are bits.
   */
  method RoundTrip(writes: seq<(Word32, nat)>, sizes: seq<nat>, room: nat) returns (words: seq<Word64>, stored: bool)
    requires forall i :: 0 <= i < |writes| ==> writes[i].1 <= 32
    requires forall i :: 0 <= i < |sizes| ==> sizes[i] <= 31
    requires Sum(sizes) <= |Padded(Payload(writes))|
    ensures |Padded(Payload(writes))| <= 8 * room ==> stored
    ensures stored ==> |words| == |sizes| && Flattened(words, sizes) == Padded(Payload(writes))[..Sum(sizes)]
  {
    var sink := new ByteSink(room);
    var output := new OutputBitStream(sink);
    assert BitsOf([]) == [] && [] + Payload(writes) == Payload(writes);
    hide BitsOf, Padded, Payload, Flattened, Sum, Started;
    PaddedLonger(Payload(writes));
    output.WriteAll(writes);
    output.AlignToByteBoundary();
    words := [];
    stored := !sink.error;
    if !stored {
      return;
    }
    var source := new ByteSource(sink.bytes);
    var input := new InputBitStream(source);
    assert source.bytes[0..] == source.bytes;
    assert input.Rest() == BitsOf(sink.bytes);
    words := ReadAll(input, sizes);
  }

  lemma PaddedLonger(bits: seq<bool>)
    ensures |bits| <= |Padded(bits)|
  {
  }

  /** A sequence of reads. */
  method ReadAll(input: InputBitStream, sizes: seq<nat>) returns (words: seq<Word64>)
    requires input.Valid() && !input.stream.error && forall i :: 0 <= i < |sizes| ==> sizes[i] <= 31
    requires Sum(sizes) <= |input.Rest()|
    modifies input, input.stream
    ensures input.Valid() && |words| == |sizes| && Flattened(words, sizes) == old(input.Rest())[..Sum(sizes)]
    ensures input.Rest() == old(input.Rest())[Sum(sizes)..]
  {
    hide WordOf, Flattened, Sum, Left, BitsOf;
    ghost var bits := input.Rest();
    words := [];
    NothingRead(sizes, bits);
    for i := 0 to |sizes|
      invariant input.Valid() && !input.stream.error && |words| == i
      invariant Sum(sizes[..i]) <= |bits| && input.Rest() == bits[Sum(sizes[..i])..]
      invariant Flattened(words, sizes[..i]) == bits[..Sum(sizes[..i])]
    {
      SumStep(sizes, i);
      var word := input.ReadBits(sizes[i]);
      ReadStep(bits, words, sizes, i, word);
      words := words + [word];
    }
    assert sizes[..|sizes|] == sizes;
  }

  lemma NothingRead(sizes: seq<nat>, bits: seq<bool>)
    ensures Sum(sizes[..0]) == 0 && Flattened([], sizes[..0]) == [] && bits[..0] == [] && bits[0..] == bits
  {
  }

  lemma SumStep(sizes: seq<nat>, i: nat)
    requires i < |sizes|
    ensures Sum(sizes[..i + 1]) == Sum(sizes[..i]) + sizes[i] <= Sum(sizes)
  {
    assert sizes[..i + 1][..i] == sizes[..i];
    SumMonotone(sizes, i + 1);
  }
}
