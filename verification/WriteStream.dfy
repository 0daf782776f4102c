/** The bounded writer that builds outgoing payloads in place. */
module WriteStream {
  import opened Binary

  /** `s` with the bytes from `at` on replaced by `b`. */
  function Patch(s: Bytes, at: nat, b: Bytes): (r: Bytes)
    requires at + |b| <= |s|
    ensures |r| == |s|
  {
    s[..at] + b + s[at + |b|..]
  }

  class Writer {
    const bytes: array<byte>
    var writeIt: nat

    ghost predicate Valid()
      reads this
    {
      writeIt <= bytes.Length
    }

    function Written(): (s: Bytes)
      requires Valid()
      reads this, bytes
      ensures |s| == writeIt
    {
      bytes[..writeIt]
    }

    constructor (room: nat)
      ensures Valid() && Written() == [] && bytes.Length == room && fresh(bytes)
    {
      bytes := new byte[room](_ => 0);
      writeIt := 0;
    }

    method Push(b: Bytes) returns (ok: bool)
      requires Valid()
      modifies this, bytes
      ensures Valid()
      ensures ok <==> old(writeIt) + |b| <= bytes.Length
      ensures ok ==> Written() == old(Written()) + b
      ensures !ok ==> Written() == old(Written())
    {
      if !(writeIt + |b| <= bytes.Length) {
        return false;
      }
      CopyIn(writeIt, b);
      assert bytes[..writeIt + |b|] == bytes[..writeIt] + bytes[writeIt..writeIt + |b|];
      writeIt := writeIt + |b|;
      return true;
    }

    /** Skips `n` bytes that were or will be written through a reference. */
    method Reserve(n: nat) returns (ok: bool)
      requires Valid()
      modifies this
      ensures Valid()
      ensures ok <==> old(writeIt) + n <= bytes.Length
      ensures ok ==> writeIt == old(writeIt) + n
    {
      if !(writeIt + n <= bytes.Length) {
        return false;
      }
      writeIt := writeIt + n;
      return true;
    }

    /** A store through a reference obtained from an earlier push. */
    method Overwrite(at: nat, b: Bytes)
      requires Valid() && at + |b| <= writeIt
      modifies bytes
      ensures Written() == Patch(old(Written()), at, b)
    {
      CopyIn(at, b);
      assert bytes[..writeIt] == bytes[..at] + bytes[at..at + |b|] + bytes[at + |b|..writeIt];
    }

    method CopyIn(at: nat, b: Bytes)
      requires at + |b| <= bytes.Length
      modifies bytes
      ensures bytes[..at] == old(bytes[..at])
      ensures bytes[at..at + |b|] == b
      ensures bytes[at + |b|..] == old(bytes[at + |b|..])
    {
      for i := 0 to |b|
        invariant bytes[..at] == old(bytes[..at])
        invariant bytes[at..at + i] == b[..i]
        invariant bytes[at + |b|..] == old(bytes[at + |b|..])
      {
        bytes[at + i] := b[i];
      }
    }
  }
}
