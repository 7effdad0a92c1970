/**
  The byte cursor (`impp::decoder`): a read offset over an immutable byte
  buffer. Every read and skip is bounds-checked; a failed one is an
  underflow and leaves the offset where it was.
*/
module ByteDecoder {
  import opened Bytes
  import opened Errors

  class Decoder {
    /** The buffer (`_readmem`, `_readsize`); it is never written. */
    const mem: seq<byte>
    /** `_readoffset` */
    var offset: nat

    /** The offset never passes the end, so `_readsize - _readoffset` never wraps. */
    ghost predicate Valid()
      reads this
    {
      offset <= |mem|
    }

    /** `decoder::create(mem, size)`: the offset starts at 0. */
    constructor Create(buffer: seq<byte>)
      ensures mem == buffer && offset == 0
      ensures Valid()
    {
      mem := buffer;
      offset := 0;
    }

    /** `get_readable()`: the bytes not yet read. */
    function GetReadable(): (n: nat)
      reads this
      requires Valid()
      ensures n + offset == |mem|
    {
      |mem| - offset
    }

    /** `get_read_offset()` */
    function GetReadOffset(): (n: nat)
      reads this
      requires Valid()
      ensures n <= |mem| && n + GetReadable() == |mem|
    {
      offset
    }

    /**
      `read(mem, size)` and `read<T>()` (with `size == sizeof(T)`): fail when
      fewer than `size` bytes remain, otherwise yield the next `size` bytes
      and move past them.
    */
    method Read(size: nat) returns (r: Result<seq<byte>>)
      requires Valid()
      modifies this
      ensures Valid()
      ensures old(GetReadable()) < size ==> r == Err(Underflow) && offset == old(offset)
      ensures old(GetReadable()) >= size ==>
        r == Ok(mem[old(offset)..old(offset) + size]) && offset == old(offset) + size
    {
      if |mem| - offset < size {
        return Err(Underflow);
      }
      r := Ok(mem[offset..offset + size]);
      offset := offset + size;
    }

    /** `proceed_reading(size)`: skip `size` bytes, failing iff fewer remain. */
    method ProceedReading(size: nat) returns (o: Outcome)
      requires Valid()
      modifies this
      ensures Valid()
      ensures o.Fail? <==> old(GetReadable()) < size
      ensures o.Fail? ==> o.error == Underflow && offset == old(offset)
      ensures o.Pass? ==> offset == old(offset) + size
    {
      if |mem| - offset < size {
        return Fail(Underflow);
      }
      offset := offset + size;
      o := Pass;
    }

    /**
      `peek<T>()`: a view of the buffer from the current offset on. The source
      returns a raw pointer without a bounds check; here it is the suffix, of
      which a caller may only use what it has checked is there.
    */
    function Peek(): (v: seq<byte>)
      reads this
      requires Valid()
      ensures |v| == GetReadable()
      ensures mem[..offset] + v == mem
    {
      mem[offset..]
    }

    /** `reset()`: back to the start of the same buffer. */
    method Reset()
      requires Valid()
      modifies this
      ensures Valid() && offset == 0
    {
      offset := 0;
    }
  }

  /**
    Two consecutive successful reads of `n` then `m` bytes yield adjacent
    slices whose concatenation is the `n + m` bytes from the original offset.
  */
  method ReadConsecutive(d: Decoder, n: nat, m: nat) returns (both: Result<seq<byte>>)
    requires d.Valid()
    modifies d
    ensures d.Valid()
    ensures old(d.GetReadable()) >= n + m <==> both.Ok?
    ensures both.Ok? ==>
      both.value == d.mem[old(d.offset)..old(d.offset) + n + m] && d.offset == old(d.offset) + n + m
  {
    var first := d.Read(n);
    if first.Err? {
      return Err(first.error);
    }
    var second := d.Read(m);
    if second.Err? {
      return Err(second.error);
    }
    both := Ok(first.value + second.value);
    assert first.value + second.value == d.mem[old(d.offset)..old(d.offset) + n + m];
  }
}
