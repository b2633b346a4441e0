/**
 * `DuplexMemoryStream`: a queue of bytes kept in chunks of equal size. (`n_write_offset`, at lines 142
 * and 182 of the source, is read as `m_write_offset`.)
 */
module MemoryStreams {
  import opened ByteStrings
  import opened CommonTypes
  import MemMem

  const CHUNK_SIZE: nat := 4096

  // ---- What the chunks hold ----

  /** The `content` lies in the chunks, `from` bytes after their beginning. */
  ghost predicate Stored(snap: seq<seq<byte>>, from: nat, content: seq<byte>) {
    && (forall i :: 0 <= i < |snap| ==> |snap[i]| == CHUNK_SIZE)
    && from + |content| <= |snap| * CHUNK_SIZE
    && forall i :: 0 <= i < |content| ==> snap[(from + i) / CHUNK_SIZE][(from + i) % CHUNK_SIZE] == content[i]
  }

  /** And no chunk is there in vain. */
  ghost predicate Holding(snap: seq<seq<byte>>, from: nat, content: seq<byte>) {
    Stored(snap, from, content) && |snap| * CHUNK_SIZE < from + |content| + CHUNK_SIZE
  }

  /** There is room for another byte, in the last chunk. */
  ghost predicate Roomy(snap: seq<seq<byte>>, from: nat, content: seq<byte>) {
    Stored(snap, from, content) && |snap| > 0 && (|snap| - 1) * CHUNK_SIZE <= from + |content| < |snap| * CHUNK_SIZE
  }

  lemma HoldingIsStored(snap: seq<seq<byte>>, from: nat, content: seq<byte>)
    requires Holding(snap, from, content)
    ensures Stored(snap, from, content) && forall i :: 0 <= i < |snap| ==> |snap[i]| == CHUNK_SIZE
  {
  }

  /** Offsets into the stream and into the chunks agree within a chunk. */
  lemma SameOffset(end: nat, base: nat, k: nat)
    requires base % CHUNK_SIZE == 0 && end == base + k
    ensures end % CHUNK_SIZE == k % CHUNK_SIZE < CHUNK_SIZE
  {
  }

  lemma ChunkAppended(snap: seq<seq<byte>>, from: nat, content: seq<byte>, chunk: seq<byte>)
    requires Holding(snap, from, content) && |chunk| == CHUNK_SIZE && (from + |content|) % CHUNK_SIZE == 0
    ensures Roomy(snap + [chunk], from, content)
  {
  }

  lemma LastChunkHasRoom(snap: seq<seq<byte>>, from: nat, content: seq<byte>)
    requires Holding(snap, from, content) && (from + |content|) % CHUNK_SIZE != 0
    ensures Roomy(snap, from, content)
  {
  }

  /** `piece` written over `chunk`, `at` bytes from its beginning. */
  function Overwritten(chunk: seq<byte>, at: nat, piece: seq<byte>): (r: seq<byte>)
    requires at + |piece| <= |chunk|
    ensures |r| == |chunk|
  {
    chunk[..at] + piece + chunk[at + |piece|..]
  }

  lemma LastChunkFilled(snap: seq<seq<byte>>, from: nat, content: seq<byte>, piece: seq<byte>)
    requires Roomy(snap, from, content) && |piece| > 0
    requires (from + |content|) % CHUNK_SIZE + |piece| <= CHUNK_SIZE
    ensures var last := |snap| - 1;
      Holding(snap[last := Overwritten(snap[last], (from + |content|) % CHUNK_SIZE, piece)], from, content + piece)
  {
    var last, at := |snap| - 1, (from + |content|) % CHUNK_SIZE;
    assert from + |content| == last * CHUNK_SIZE + at;
    var snap' := snap[last := Overwritten(snap[last], at, piece)];
    forall i | 0 <= i < |content| + |piece|
      ensures snap'[(from + i) / CHUNK_SIZE][(from + i) % CHUNK_SIZE] == (content + piece)[i]
    {
      var c, o := (from + i) / CHUNK_SIZE, (from + i) % CHUNK_SIZE;
      if i < |content| {
        assert c < last || (c == last && o < at);
        assert snap[c][o] == content[i];
      } else {
        assert c == last && o == at + (i - |content|);
      }
    }
  }

  lemma ChunkDropped(snap: seq<seq<byte>>, from: nat, content: seq<byte>)
    requires Holding(snap, from, content) && from >= CHUNK_SIZE
    ensures |snap| > 0 && Holding(snap[1..], from - CHUNK_SIZE, content)
  {
    forall i | 0 <= i < |content|
      ensures snap[1..][(from - CHUNK_SIZE + i) / CHUNK_SIZE][(from - CHUNK_SIZE + i) % CHUNK_SIZE] == content[i]
    {
      assert (from - CHUNK_SIZE + i) / CHUNK_SIZE == (from + i) / CHUNK_SIZE - 1;
      assert (from - CHUNK_SIZE + i) % CHUNK_SIZE == (from + i) % CHUNK_SIZE;
    }
  }

  lemma BytesDropped(snap: seq<seq<byte>>, from: nat, content: seq<byte>, n: nat)
    requires Holding(snap, from, content) && n <= |content|
    ensures Holding(snap, from + n, content[n..])
  {
    forall i | 0 <= i < |content| - n
      ensures snap[(from + n + i) / CHUNK_SIZE][(from + n + i) % CHUNK_SIZE] == content[n..][i]
    {
      assert from + n + i == from + (n + i);
    }
  }

  /** A stretch of the content that lies within one chunk. */
  lemma StretchOfChunk(snap: seq<seq<byte>>, from: nat, content: seq<byte>, p: nat, len: nat, c: nat, o: nat)
    requires Stored(snap, from, content) && p < |content| && p + len <= |content|
    requires from + p == c * CHUNK_SIZE + o && o + len <= CHUNK_SIZE && o < CHUNK_SIZE
    ensures c < |snap| && snap[c][o..o + len] == content[p..p + len]
  {
    var there, here := snap[c][o..o + len], content[p..p + len];
    forall i | 0 <= i < len ensures there[i] == here[i] {
      assert (from + (p + i)) / CHUNK_SIZE == c && (from + (p + i)) % CHUNK_SIZE == o + i;
      assert here[i] == content[p + i] && there[i] == snap[c][o + i];
    }
  }

  /** What the arrays hold at this moment. */
  ghost function Snapshot(chunks: seq<array<byte>>): (snap: seq<seq<byte>>)
    reads chunks
    ensures |snap| == |chunks| && forall i :: 0 <= i < |chunks| ==> snap[i] == chunks[i][..]
  {
    seq(|chunks|, i requires 0 <= i < |chunks| reads chunks => chunks[i][..])
  }

  ghost predicate Distinct<T>(s: seq<T>) {
    forall i, k :: 0 <= i < k < |s| ==> s[i] != s[k]
  }

  lemma DistinctAppended<T>(s: seq<T>, x: T)
    requires Distinct(s) && x !in s
    ensures Distinct(s + [x])
  {
  }

  lemma DistinctTail<T>(s: seq<T>)
    requires Distinct(s) && |s| > 0
    ensures Distinct(s[1..])
  {
  }

  // ---- The queue it stands for ----

  datatype Call = Write(bytes: seq<byte>) | Read(size: nat) | ReadOrError(size: nat) | Discard(count: nat) | HandleError

  /** A byte queue with an error flag: all that a caller can tell about a stream. */
  datatype Queue = Queue(bytes: seq<byte>, error: bool)

  function Min(a: nat, b: nat): nat {
    if a < b then a else b
  }

  /** The queue after a call, and the bytes taken from its front. */
  function Serve(q: Queue, call: Call): (Queue, seq<byte>) {
    match call
    case Write(bytes) => (q.(bytes := q.bytes + bytes), [])
    case Read(size) =>
      var n := if q.error then 0 else Min(size, |q.bytes|);
      (q.(bytes := q.bytes[n..]), q.bytes[..n])
    case ReadOrError(size) =>
      if |q.bytes| < size then (q.(error := true), [])
      else
        var n := if q.error then 0 else size;
        (q.(bytes := q.bytes[n..]), q.bytes[..n])
    case Discard(count) =>
      if |q.bytes| < count then (q.(error := true), [])
      else (q.(bytes := q.bytes[count..]), q.bytes[..count])
    case HandleError => (q.(error := false), [])
  }

  function ServeAll(q: Queue, calls: seq<Call>): (Queue, seq<byte>)
    decreases |calls|
  {
    if |calls| == 0 then (q, [])
    else
      var (q1, taken) := Serve(q, calls[0]);
      var (q2, rest) := ServeAll(q1, calls[1..]);
      (q2, taken + rest)
  }

  function WrittenBy(call: Call): seq<byte> {
    if call.Write? then call.bytes else []
  }

  function Written(calls: seq<Call>): seq<byte> {
    if |calls| == 0 then [] else WrittenBy(calls[0]) + Written(calls[1..])
  }

  lemma ServeConserves(q: Queue, call: Call)
    ensures Serve(q, call).1 + Serve(q, call).0.bytes == q.bytes + WrittenBy(call)
  {
  }

  lemma Reassociate(a: seq<byte>, b: seq<byte>, c: seq<byte>)
    ensures (a + b) + c == a + (b + c)
  {
  }

  /** First in, first out: what has been taken, followed by what is left, is what was there and what was written. */
  lemma {:induction false} FirstInFirstOut(q: Queue, calls: seq<Call>)
    ensures ServeAll(q, calls).1 + ServeAll(q, calls).0.bytes == q.bytes + Written(calls)
    decreases |calls|
  {
    hide Serve, WrittenBy;
    if |calls| > 0 {
      var (q1, taken) := Serve(q, calls[0]);
      FirstInFirstOut(q1, calls[1..]);
      ServeConserves(q, calls[0]);
      var rest := ServeAll(q1, calls[1..]);
      Reassociate(taken, rest.1, rest.0.bytes);
      Reassociate(taken, q1.bytes, Written(calls[1..]));
      Reassociate(q.bytes, WrittenBy(calls[0]), Written(calls[1..]));
    }
  }

  lemma {:induction false} ServeAllStep(q: Queue, calls: seq<Call>, call: Call)
    ensures var (q1, taken) := ServeAll(q, calls);
      ServeAll(q, calls + [call]) == (Serve(q1, call).0, taken + Serve(q1, call).1)
    decreases |calls|
  {
    hide Serve;
    if |calls| == 0 {
      assert calls + [call] == [call] && [call][1..] == [];
      var (q1, taken) := Serve(q, call);
      assert ServeAll(q1, []) == (q1, []);
      assert taken + [] == [] + taken;
    } else {
      assert (calls + [call])[1..] == calls[1..] + [call];
      var (q0, first) := Serve(q, calls[0]);
      ServeAllStep(q0, calls[1..], call);
      var (q1, rest) := ServeAll(q0, calls[1..]);
      Reassociate(first, rest, Serve(q1, call).1);
    }
  }

  // ---- The stream ----

  class DuplexMemoryStream {
    var chunks: seq<array<byte>>
    var writeOffset: nat
    var readOffset: nat
    var baseOffset: nat
    var error: bool
    /** The bytes written and not yet read. */
    ghost var contents: seq<byte>

    ghost predicate Valid()
      reads this, chunks
    {
      && baseOffset % CHUNK_SIZE == 0
      && baseOffset <= readOffset < baseOffset + CHUNK_SIZE && readOffset <= writeOffset
      && |contents| == writeOffset - readOffset
      && Distinct(chunks) && Holding(Snapshot(chunks), readOffset - baseOffset, contents)
    }

    ghost function Repr(): set<object>
      reads this
    {
      (set c: object | c in chunks) + {this}
    }

    ghost function AsQueue(): Queue
      reads this
    {
      Queue(contents, error)
    }

    constructor ()
      ensures Valid() && AsQueue() == Queue([], false) && chunks == []
    {
      chunks, writeOffset, readOffset, baseOffset, error, contents := [], 0, 0, 0, false, [];
    }

    /** `eof` */
    predicate Eof()
      requires Valid()
      reads this, chunks
      ensures Eof() <==> contents == []
    {
      writeOffset == readOffset
    }

    /** `try_discard_chunks`, after `readOffset` has advanced. */
    method TryDiscardChunks()
      requires baseOffset % CHUNK_SIZE == 0 && baseOffset <= readOffset <= writeOffset
      requires |contents| == writeOffset - readOffset && Distinct(chunks)
      requires Holding(Snapshot(chunks), readOffset - baseOffset, contents)
      modifies this`chunks, this`baseOffset
      ensures Valid() && Repr() <= old(Repr())
    {
      hide Stored, Holding, Distinct;
      while readOffset - baseOffset >= CHUNK_SIZE
        invariant baseOffset % CHUNK_SIZE == 0 && baseOffset <= readOffset
        invariant Distinct(chunks) && Repr() <= old(Repr())
        invariant Holding(Snapshot(chunks), readOffset - baseOffset, contents)
        decreases readOffset - baseOffset
      {
        ChunkDropped(Snapshot(chunks), readOffset - baseOffset, contents);
        assert Snapshot(chunks[1..]) == Snapshot(chunks)[1..];
        DistinctTail(chunks);
        chunks := chunks[1..];
        baseOffset := baseOffset + CHUNK_SIZE;
      }
    }

    /** `discard_or_error` */
    method DiscardOrError(count: nat) returns (ok: bool)
      requires Valid()
      modifies this
      ensures Valid() && Repr() <= old(Repr())
      ensures AsQueue() == Serve(old(AsQueue()), Discard(count)).0
      ensures ok <==> count <= |old(contents)|
      ensures ok ==> contents == old(contents)[count..] && error == old(error)
      ensures !ok ==> contents == old(contents) && error
    {
      if writeOffset - readOffset < count {
        error := true;
        return false;
      }
      Consume(count);
      TryDiscardChunks();
      return true;
    }

    /** `m_read_offset += count` */
    method Consume(count: nat)
      requires Valid() && count <= |contents|
      modifies this`readOffset, this`contents
      ensures baseOffset <= readOffset <= writeOffset && contents == old(contents)[count..]
      ensures |contents| == writeOffset - readOffset
      ensures Holding(Snapshot(chunks), readOffset - baseOffset, contents)
    {
      hide Stored, Distinct;
      SizeOfContents();
      BytesDropped(Snapshot(chunks), readOffset - baseOffset, contents, count);
      readOffset := readOffset + count;
      contents := contents[count..];
    }

    /** One round of `read_without_consuming`: as much as one chunk gives. */
    method ReadFromChunk(bytes: array<byte>, nread: nat) returns (count: nat)
      requires Valid() && bytes !in Repr() && nread < bytes.Length && nread < |contents|
      modifies bytes
      ensures 0 < count && nread + count <= bytes.Length && nread + count <= |contents|
      ensures bytes[..] == Overwritten(old(bytes[..]), nread, contents[nread..nread + count])
      ensures Valid()
    {
      ghost var snap, from := Snapshot(chunks), readOffset - baseOffset;
      hide Stored, Overwritten, Distinct;
      var chunkIndex := (readOffset - baseOffset + nread) / CHUNK_SIZE;
      var offset := (readOffset + nread) % CHUNK_SIZE;
      count := Min(Min(CHUNK_SIZE - offset, writeOffset - readOffset - nread), bytes.Length - nread);
      assert from + nread == chunkIndex * CHUNK_SIZE + offset;
      StretchOfChunk(snap, from, contents, nread, count, chunkIndex, offset);
      HoldingIsStored(snap, from, contents);
      assert chunks[chunkIndex] in chunks;
      Copy(bytes, nread, chunks[chunkIndex], offset, count);
      assert Snapshot(chunks) == snap;
    }

    /** `read_without_consuming` */
    method ReadWithoutConsuming(bytes: array<byte>) returns (nread: nat)
      requires Valid() && bytes !in Repr()
      modifies bytes
      ensures Valid() && nread == Min(bytes.Length, |contents|)
      ensures bytes[..] == contents[..nread] + old(bytes[..])[nread..]
    {
      SizeOfContents();
      hide Valid, Overwritten;
      ghost var was := bytes[..];
      nread := 0;
      while bytes.Length - nread > 0 && writeOffset - readOffset - nread > 0
        invariant nread <= bytes.Length && nread <= |contents| && Valid()
        invariant bytes[..] == contents[..nread] + was[nread..]
        decreases bytes.Length - nread
      {
        var count := ReadFromChunk(bytes, nread);
        Joined(contents, was, nread, count);
        nread := nread + count;
      }
    }

    lemma SizeOfContents()
      requires Valid()
      ensures |contents| == writeOffset - readOffset
    {
    }

    /** `read` */
    method Read(bytes: array<byte>) returns (nread: nat)
      requires Valid() && bytes !in Repr()
      modifies this, bytes
      ensures Valid() && Repr() <= old(Repr())
      ensures AsQueue() == Serve(old(AsQueue()), Call.Read(bytes.Length)).0
      ensures nread == |Serve(old(AsQueue()), Call.Read(bytes.Length)).1|
      ensures bytes[..] == Serve(old(AsQueue()), Call.Read(bytes.Length)).1 + old(bytes[..])[nread..]
      ensures nread <= bytes.Length && nread <= |old(contents)| && (old(error) ==> nread == 0)
      ensures !old(error) ==> nread == bytes.Length || nread == |old(contents)|
      ensures bytes[..] == old(contents)[..nread] + old(bytes[..])[nread..]
      ensures contents == old(contents)[nread..] && error == old(error)
    {
      if error {
        return 0;
      }
      nread := ReadWithoutConsuming(bytes);
      Consume(nread);
      TryDiscardChunks();
    }

    /** `read_or_error` */
    method ReadOrError(bytes: array<byte>) returns (ok: bool)
      requires Valid() && bytes !in Repr()
      modifies this, bytes
      ensures Valid() && Repr() <= old(Repr())
      ensures AsQueue() == Serve(old(AsQueue()), Call.ReadOrError(bytes.Length)).0
      ensures ok <==> bytes.Length <= |old(contents)| && (!old(error) || bytes.Length == 0)
      ensures ok ==> bytes[..] == old(contents)[..bytes.Length]
      ensures !ok ==> bytes[..] == old(bytes[..])
      ensures contents == if ok then old(contents)[bytes.Length..] else old(contents)
      ensures error <==> old(error) || bytes.Length > |old(contents)|
    {
      if writeOffset - readOffset < bytes.Length {
        error := true;
        return false;
      }
      var nread := Read(bytes);
      return nread == bytes.Length;
    }

    /** The chunk that the next byte goes to is the last one; it is added when there is none. */
    method EnsureRoom(ghost content: seq<byte>, end: nat)
      requires baseOffset % CHUNK_SIZE == 0 && baseOffset <= readOffset && end == readOffset + |content|
      requires Distinct(chunks) && Holding(Snapshot(chunks), readOffset - baseOffset, content)
      modifies this`chunks
      ensures Distinct(chunks) && Roomy(Snapshot(chunks), readOffset - baseOffset, content)
      ensures fresh(Repr() - old(Repr()))
    {
      hide Holding, Roomy, Stored, Distinct;
      ghost var from := readOffset - baseOffset;
      ghost var snap := Snapshot(chunks);
      SameOffset(end, baseOffset, from + |content|);
      if end % CHUNK_SIZE == 0 {
        var chunk := new byte[CHUNK_SIZE];
        assert forall c :: c in chunks ==> c != chunk;
        DistinctAppended(chunks, chunk);
        chunks := chunks + [chunk];
        assert Snapshot(chunks) == snap + [chunk[..]];
        ChunkAppended(snap, from, content, chunk[..]);
      } else {
        LastChunkHasRoom(snap, from, content);
      }
    }

    /** `copy_trimmed_to` what is left of the last chunk. */
    method FillLastChunk(bytes: seq<byte>, nwritten: nat, ghost content: seq<byte>) returns (count: nat)
      requires baseOffset % CHUNK_SIZE == 0 && baseOffset <= readOffset && nwritten < |bytes|
      requires writeOffset + nwritten == readOffset + |content|
      requires Distinct(chunks) && Roomy(Snapshot(chunks), readOffset - baseOffset, content)
      modifies Repr() - {this}
      ensures 0 < count && nwritten + count <= |bytes|
      ensures Holding(Snapshot(chunks), readOffset - baseOffset, content + bytes[nwritten..nwritten + count])
    {
      hide Holding, Roomy, Stored, Distinct, Overwritten;
      ghost var snap := Snapshot(chunks);
      RoomyBounds(snap, readOffset - baseOffset, content);
      var last := |chunks| - 1;
      assert chunks[last] in Repr();
      var offset := (writeOffset + nwritten) % CHUNK_SIZE;
      SameOffset(writeOffset + nwritten, baseOffset, readOffset - baseOffset + |content|);
      count := Min(|bytes| - nwritten, CHUNK_SIZE - offset);
      LastChunkFilled(snap, readOffset - baseOffset, content, bytes[nwritten..nwritten + count]);
      Put(last, offset, bytes[nwritten..nwritten + count]);
    }

    /** One round of `write`. */
    method WriteToChunk(bytes: seq<byte>, nwritten: nat, ghost content: seq<byte>) returns (count: nat)
      requires baseOffset % CHUNK_SIZE == 0 && baseOffset <= readOffset && nwritten < |bytes|
      requires writeOffset + nwritten == readOffset + |content|
      requires Distinct(chunks) && Holding(Snapshot(chunks), readOffset - baseOffset, content)
      modifies this`chunks, Repr() - {this}
      ensures fresh(Repr() - old(Repr())) && 0 < count && nwritten + count <= |bytes|
      ensures Distinct(chunks)
      ensures Holding(Snapshot(chunks), readOffset - baseOffset, content + bytes[nwritten..nwritten + count])
    {
      hide Holding, Roomy, Distinct;
      EnsureRoom(content, writeOffset + nwritten);
      count := FillLastChunk(bytes, nwritten, content);
    }

    /** The loop of `write`, chunk by chunk. */
    method WriteChunks(bytes: seq<byte>) returns (nwritten: nat)
      requires Valid()
      modifies this`chunks, Repr() - {this}
      ensures fresh(Repr() - old(Repr())) && nwritten == |bytes|
      ensures Distinct(chunks) && Holding(Snapshot(chunks), readOffset - baseOffset, contents + bytes)
    {
      hide Holding, Distinct;
      nwritten := 0;
      ghost var written := contents;
      NothingWritten(contents, bytes);
      while |bytes| - nwritten > 0
        invariant nwritten <= |bytes| && fresh(Repr() - old(Repr()))
        invariant Distinct(chunks) && Holding(Snapshot(chunks), readOffset - baseOffset, written)
        invariant written == contents + bytes[..nwritten]
        decreases |bytes| - nwritten
      {
        var count := WriteToChunk(bytes, nwritten, written);
        MoreWritten(contents, bytes, nwritten, count);
        written := written + bytes[nwritten..nwritten + count];
        nwritten := nwritten + count;
      }
    }

    /** `write` */
    method Write(bytes: seq<byte>) returns (nwritten: nat)
      requires Valid()
      modifies Repr()
      ensures Valid() && fresh(Repr() - old(Repr()))
      ensures AsQueue() == Serve(old(AsQueue()), Call.Write(bytes)).0
      ensures contents == old(contents) + bytes && error == old(error)
      ensures nwritten == |bytes|
    {
      hide Holding, Distinct;
      nwritten := WriteChunks(bytes);
      writeOffset := writeOffset + nwritten;
      contents := contents + bytes;
    }

    /** `copy_trimmed_to` into a chunk, which no other chunk shares its memory with. */
    method Put(index: nat, at: nat, piece: seq<byte>)
      requires index < |chunks| && Distinct(chunks) && at + |piece| <= chunks[index].Length
      modifies chunks[index]
      ensures Snapshot(chunks) == old(Snapshot(chunks))[index := Overwritten(old(chunks[index][..]), at, piece)]
    {
      var chunk := chunks[index];
      forall i | 0 <= i < |piece| {
        chunk[at + i] := piece[i];
      }
      assert chunk[..] == Overwritten(old(chunk[..]), at, piece);
      ghost var snap := old(Snapshot(chunks))[index := Overwritten(old(chunk[..]), at, piece)];
      forall i | 0 <= i < |chunks| ensures chunks[i][..] == snap[i] {
        assert i != index ==> chunks[i] != chunk;
      }
    }

    /** `offset_of` a non-empty value: where it first occurs in the unread bytes. */
    method OffsetOf(value: seq<byte>) returns (r: Option<nat>)
      requires Valid() && |value| > 0
      ensures IsFirst(contents, value, r)
      ensures r == NaiveSearch(contents, value, 0)
    {
      ghost var from := readOffset - baseOffset;
      ghost var snap := Snapshot(chunks);
      hide Holding, Stored, Distinct, Concat, NaiveSearch, IsFirst;
      HoldingIsStored(snap, from, contents);
      var spans: seq<seq<byte>> := [];
      var chunkIndex := (readOffset - baseOffset) / CHUNK_SIZE;
      var chunkReadOffset: nat := (readOffset - baseOffset) % CHUNK_SIZE;
      var bytesToSearch := writeOffset - readOffset;
      ghost var p: nat := 0;
      NothingYet(contents);
      while bytesToSearch > 0
        invariant 0 <= bytesToSearch == |contents| - p
        invariant bytesToSearch > 0 ==>
          from + p == chunkIndex * CHUNK_SIZE + chunkReadOffset && chunkReadOffset < CHUNK_SIZE
        invariant Concat(spans) == contents[..p]
        decreases bytesToSearch
      {
        ghost var len := Min(CHUNK_SIZE - chunkReadOffset, bytesToSearch);
        StretchOfChunk(snap, from, contents, p, len, chunkIndex, chunkReadOffset);
        var span := chunks[chunkIndex][..];
        if chunkReadOffset != 0 {
          span := span[chunkReadOffset..];
        }
        assert span[..len] == snap[chunkIndex][chunkReadOffset..chunkReadOffset + len];
        chunkReadOffset := 0;
        SpanAppended(spans, contents, p, span[..len]);
        if bytesToSearch < |span| {
          spans := spans + [span[..bytesToSearch]];
          p := p + len;
          break;
        }
        assert span[..len] == span;
        bytesToSearch := bytesToSearch - |span|;
        spans := spans + [span];
        chunkIndex := chunkIndex + 1;
        p := p + len;
      }
      assert contents[..p] == contents;
      r := MemMem.MemMemChunks(spans, value);
    }

    /** Any sequence of calls does to the stream what it does to the queue, and takes the same bytes from it. */
    method Run(calls: seq<Call>) returns (taken: seq<byte>)
      requires Valid()
      modifies Repr()
      ensures Valid() && (AsQueue(), taken) == ServeAll(old(AsQueue()), calls)
      ensures taken + contents == old(contents) + Written(calls)
    {
      hide Serve, ServeAll, Valid;
      ghost var q := AsQueue();
      taken := [];
      NothingServed(q);
      for i := 0 to |calls|
        invariant Valid() && (AsQueue(), taken) == ServeAll(q, calls[..i])
        invariant fresh(Repr() - old(Repr()))
      {
        assert calls[..i + 1] == calls[..i] + [calls[i]];
        ServeAllStep(q, calls[..i], calls[i]);
        var got := Answer(calls[i]);
        taken := taken + got;
      }
      assert calls[..|calls|] == calls;
      FirstInFirstOut(q, calls);
    }

    /** A read into a buffer of its own. */
    method ReadUpTo(size: nat) returns (got: seq<byte>)
      requires Valid()
      modifies Repr()
      ensures Valid() && (AsQueue(), got) == Serve(old(AsQueue()), Call.Read(size))
      ensures fresh(Repr() - old(Repr()))
    {
      var buffer := new byte[size];
      var n := Read(buffer);
      got := buffer[..n];
    }

    method ReadAll(size: nat) returns (got: seq<byte>)
      requires Valid()
      modifies Repr()
      ensures Valid() && (AsQueue(), got) == Serve(old(AsQueue()), Call.ReadOrError(size))
      ensures fresh(Repr() - old(Repr()))
    {
      var buffer := new byte[size];
      var ok := ReadOrError(buffer);
      got := if ok then buffer[..] else [];
    }

    /** A discard, with the bytes that it takes. */
    method DiscardFront(count: nat) returns (got: seq<byte>)
      requires Valid()
      modifies Repr()
      ensures Valid() && (AsQueue(), got) == Serve(old(AsQueue()), Discard(count))
      ensures fresh(Repr() - old(Repr()))
    {
      got := Front(Min(count, writeOffset - readOffset));
      var ok := DiscardOrError(count);
      got := if ok then got else [];
    }

    /** One call; what it takes is what it leaves in the caller's buffer. */
    method Answer(call: Call) returns (got: seq<byte>)
      requires Valid()
      modifies Repr()
      ensures Valid() && (AsQueue(), got) == Serve(old(AsQueue()), call)
      ensures fresh(Repr() - old(Repr()))
    {
      got := [];
      match call
      case Write(bytes) =>
        var _ := Write(bytes);
      case Read(size) =>
        got := ReadUpTo(size);
      case ReadOrError(size) =>
        got := ReadAll(size);
      case Discard(count) =>
        got := DiscardFront(count);
      case HandleError =>
        error := false;
    }

    /** The bytes a discard is about to take, as `read_without_consuming` shows them. */
    method Front(n: nat) returns (got: seq<byte>)
      requires Valid() && n <= |contents|
      ensures got == contents[..n]
    {
      var buffer := new byte[n];
      var nread := ReadWithoutConsuming(buffer);
      got := buffer[..];
    }
  }

  lemma NothingWritten(contents: seq<byte>, bytes: seq<byte>)
    ensures contents == contents + bytes[..0] && contents + bytes[..|bytes|] == contents + bytes
  {
  }

  lemma MoreWritten(contents: seq<byte>, bytes: seq<byte>, n: nat, count: nat)
    requires n + count <= |bytes|
    ensures contents + bytes[..n] + bytes[n..n + count] == contents + bytes[..n + count]
  {
  }

  lemma NothingServed(q: Queue)
    ensures ServeAll(q, []) == (q, [])
  {
  }

  lemma NothingYet(contents: seq<byte>)
    ensures Concat([]) == contents[..0]
  {
  }

  lemma SpanAppended(spans: seq<seq<byte>>, contents: seq<byte>, p: nat, span: seq<byte>)
    requires p + |span| <= |contents| && Concat(spans) == contents[..p] && span == contents[p..p + |span|]
    ensures Concat(spans + [span]) == contents[..p + |span|]
  {
    ConcatSplit(spans, [span]);
    assert Concat([span]) == span;
  }

  lemma RoomyBounds(snap: seq<seq<byte>>, from: nat, content: seq<byte>)
    requires Roomy(snap, from, content)
    ensures |snap| > 0 && forall i :: 0 <= i < |snap| ==> |snap[i]| == CHUNK_SIZE
  {
  }

  lemma Joined(contents: seq<byte>, was: seq<byte>, n: nat, count: nat)
    requires n + count <= |contents| && n + count <= |was|
    ensures Overwritten(contents[..n] + was[n..], n, contents[n..n + count]) == contents[..n + count] + was[n + count..]
  {
  }

  /** `copy_trimmed_to` between two arrays. */
  method Copy(target: array<byte>, at: nat, source: array<byte>, start: nat, count: nat)
    requires target != source && at + count <= target.Length && start + count <= source.Length
    modifies target
    ensures target[..] == Overwritten(old(target[..]), at, source[start..start + count])
  {
    forall i | 0 <= i < count {
      target[at + i] := source[start + i];
    }
  }
}
