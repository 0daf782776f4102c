/** The linear byte buffer under TLS and WebSocket, and transactions that read it tentatively. */
module ByteStream {
  import opened Outcomes
  import opened Binary

  /** A span inside a stream's buffer. */
  datatype View = View(start: nat, size: nat)

  /** `pattern` occurs in `s` at `i`. */
  predicate OccursAt(s: Bytes, pattern: Bytes, i: nat) {
    i + |pattern| <= |s| && s[i..i + |pattern|] == pattern
  }

  /** Position of the first occurrence, if any. */
  ghost predicate IsFirst(s: Bytes, pattern: Bytes, r: Option<nat>) {
    match r
    case None => forall i: nat :: !OccursAt(s, pattern, i)
    case Some(k) => OccursAt(s, pattern, k) && forall i: nat :: i < k ==> !OccursAt(s, pattern, i)
  }

  lemma SliceOfSlice(s: Bytes, lo: nat, hi: nat, i: nat, n: nat)
    requires lo <= hi <= |s| && lo + i + n <= hi
    ensures s[lo..hi][i..i + n] == s[lo + i..lo + i + n]
  {
    var inner := s[lo..hi][i..i + n];
    assert forall k :: 0 <= k < n ==> inner[k] == s[lo + i + k];
  }

  class Stream {
    const buffer: array<byte>
    var read: nat
    var write: nat

    /** The indices are ordered and an empty stream is always rewound to the start. */
    ghost predicate Valid()
      reads this
    {
      read <= write <= buffer.Length && (read == write ==> read == 0)
    }

    /** The queue the buffer stands for. */
    function Contents(): (s: Bytes)
      requires Valid()
      reads this, buffer
      ensures |s| == write - read
    {
      buffer[read..write]
    }

    function Bytes(v: View): (s: Bytes)
      requires v.start + v.size <= buffer.Length
      reads buffer
      ensures |s| == v.size
    {
      buffer[v.start..v.start + v.size]
    }

    constructor (capacity: nat)
      ensures Valid() && Contents() == [] && buffer.Length == capacity && fresh(buffer)
    {
      buffer := new byte[capacity](_ => 0);
      read := 0;
      write := 0;
    }

    function Size(): nat
      requires Valid()
      reads this
    {
      write - read
    }

    function AvailableSuffix(): nat
      requires Valid()
      reads this
    {
      buffer.Length - write
    }

    method Peek(n: nat) returns (v: Option<View>)
      requires Valid()
      ensures v.Some? <==> n <= |Contents()|
      ensures v.Some? ==>
                && v.value == View(read, n) && v.value.start + n <= buffer.Length
                && Bytes(v.value) == Contents()[..n]
    {
      if n > Size() {
        return None;
      }
      return Some(View(read, n));
    }

    /** The popped span stays in the buffer, so its bytes remain readable until the next push or shift. */
    method Pop(n: nat) returns (v: Option<View>)
      requires Valid()
      modifies this
      ensures Valid()
      ensures v.Some? <==> n <= old(|Contents()|)
      ensures v.None? ==> Contents() == old(Contents())
      ensures v.Some? ==>
                && v.value == View(old(read), n) && v.value.start + n <= buffer.Length
                && Contents() == old(Contents())[n..]
                && Bytes(v.value) == old(Contents())[..n]
      ensures v.Some? && Contents() != [] ==> v.value.start + n == read
    {
      if n > Size() {
        return None;
      }
      v := Peek(n);
      ShiftRead(n);
    }

    method ShiftRead(n: nat)
      requires Valid() && n <= |Contents()|
      modifies this
      ensures Valid() && Contents() == old(Contents())[n..]
      ensures Contents() != [] ==> read == old(read) + n
    {
      read := read + n;
      if read == write {
        read := 0;
        write := 0;
      }
    }

    method PushBytes(bytes: Bytes) returns (ok: bool)
      requires Valid()
      modifies this, buffer
      ensures Valid()
      ensures ok <==> |bytes| <= old(AvailableSuffix())
      ensures Contents() == if ok then old(Contents()) + bytes else old(Contents())
      ensures read == old(read)
    {
      if !(AvailableSuffix() >= |bytes|) {
        return false;
      }
      for i := 0 to |bytes|
        modifies buffer
        invariant buffer[read..write] == old(buffer[read..write])
        invariant buffer[write..write + i] == bytes[..i]
      {
        buffer[write + i] := bytes[i];
      }
      assert buffer[write..write + |bytes|] == bytes;
      assert buffer[read..write + |bytes|] == buffer[read..write] + buffer[write..write + |bytes|];
      write := write + |bytes|;
      return true;
    }

    /** Moves the contents to the front. Source and destination overlap; copying forwards is safe
        because the destination lies before the source. */
    method Shift()
      requires Valid()
      modifies this, buffer
      ensures Valid() && Contents() == old(Contents())
      ensures AvailableSuffix() == buffer.Length - |Contents()|
    {
      var n := Size();
      for i := 0 to n
        modifies buffer
        invariant buffer[..i] == old(buffer[read..read + i])
        invariant buffer[read + i..write] == old(buffer[read + i..write])
      {
        assert buffer[read + i] == old(buffer[read + i]) by {
          assert buffer[read + i..write][0] == old(buffer[read + i..write])[0];
        }
        assert old(buffer[read + i..write])[1..] == old(buffer[read + i + 1..write]);
        buffer[i] := buffer[read + i];
      }
      write := n;
      read := 0;
    }

    /** A store into a popped span, which is no longer part of the contents. */
    method Overwrite(v: View, bytes: Bytes)
      requires Valid() && v.start + v.size <= buffer.Length && |bytes| <= v.size
      requires v.start + v.size <= read || Contents() == []
      modifies buffer
      ensures Contents() == old(Contents())
      ensures buffer[v.start..v.start + |bytes|] == bytes
    {
      for i := 0 to |bytes|
        invariant buffer[read..write] == old(buffer[read..write])
        invariant buffer[v.start..v.start + i] == bytes[..i]
      {
        buffer[v.start + i] := bytes[i];
      }
    }

    /** Position of the first occurrence of a pattern. A match at the very end, which only an empty
        pattern in an empty stream can have, is reported as none. */
    method Search(pattern: Bytes) returns (r: Option<nat>)
      requires Valid()
      ensures pattern != [] || Contents() != [] ==> IsFirst(Contents(), pattern, r)
      ensures pattern == [] && Contents() == [] ==> r == None
    {
      var at := read;
      while at + |pattern| <= write
        invariant read <= at <= write
        invariant pattern == [] ==> at == read
        invariant forall i: nat :: i < at - read ==> !OccursAt(Contents(), pattern, i)
      {
        var j := 0;
        while j < |pattern| && buffer[at + j] == pattern[j]
          invariant 0 <= j <= |pattern|
          invariant buffer[at..at + j] == pattern[..j]
        {
          j := j + 1;
        }
        SliceOfSlice(buffer[..], read, write, at - read, |pattern|);
        if j == |pattern| {
          assert OccursAt(Contents(), pattern, at - read);
          assert at == write ==> pattern == [] && Contents() == [];
          return if at == write then None else Some(at - read);
        }
        assert !OccursAt(Contents(), pattern, at - read) by {
          assert buffer[at..at + |pattern|][j] != pattern[j];
        }
        at := at + 1;
      }
      return None;
    }
  }

  /** Reads ahead in a stream without consuming; only `Commit` removes the bytes read. */
  class ReadTransaction {
    const stream: Stream
    const base: nat
    const size: nat
    var readIt: nat
    ghost var taken: Bytes  // concatenation of everything popped so far

    /** Holds as long as nobody else changed the stream. */
    ghost predicate Valid()
      reads this, stream, stream.buffer
    {
      && stream.Valid()
      && base == stream.read && size == stream.Size()
      && readIt <= size
      && taken == stream.Contents()[..readIt]
    }

    constructor (stream: Stream)
      requires stream.Valid()
      ensures Valid() && this.stream == stream && taken == [] && readIt == 0
      ensures Remaining() == stream.Contents()
    {
      this.stream := stream;
      base := stream.read;
      size := stream.Size();
      readIt := 0;
      taken := [];
    }

    ghost function Remaining(): Bytes
      requires Valid()
      reads this, stream, stream.buffer
    {
      stream.Contents()[readIt..]
    }

    method Pop(n: nat) returns (v: Option<View>)
      requires Valid()
      modifies this
      ensures Valid()
      ensures v.Some? <==> n <= old(|Remaining()|)
      ensures v.None? ==> taken == old(taken) && Remaining() == old(Remaining())
      ensures v.Some? ==>
                && v.value.start + v.value.size <= stream.buffer.Length
                && stream.Bytes(v.value) == old(Remaining())[..n]
                && Remaining() == old(Remaining())[n..]
                && taken == old(taken) + stream.Bytes(v.value)
    {
      if size - readIt < n {
        return None;
      }
      v := Some(View(base + readIt, n));
      ghost var all := stream.Contents();
      SliceOfSlice(stream.buffer[..], base, base + size, readIt, n);
      assert all[readIt..][..n] == all[readIt..readIt + n];
      assert all[..readIt + n] == all[..readIt] + all[readIt..readIt + n];
      assert all[readIt..][n..] == all[readIt + n..];
      taken := taken + stream.Bytes(v.value);
      readIt := readIt + n;
    }

    /** Removes and returns exactly the bytes popped. */
    method Commit() returns (v: View)
      requires Valid()
      modifies stream
      ensures stream.Valid() && stream.Contents() == old(Remaining())
      ensures v.start + v.size <= stream.buffer.Length && stream.Bytes(v) == old(taken)
      ensures old(stream.Contents()) == stream.Bytes(v) + stream.Contents()
    {
      var popped := stream.Pop(readIt);
      v := popped.value;
    }
  }
}
