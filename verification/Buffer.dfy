/** The buffer substrate (buffer.h, buffer.c): a window [offset, offset + len) onto a byte array. */
module Buffers {

  newtype byte = x: int | 0 <= x < 256

  /** Network byte order. */
  function U32(n: nat): (s: seq<byte>)
    requires n < 0x1_0000_0000
    ensures |s| == 4
  {
    var a := n / 0x100;
    var b := a / 0x100;
    [(b / 0x100) as byte, (b % 0x100) as byte, (a % 0x100) as byte, (n % 0x100) as byte]
  }

  function FromU32(s: seq<byte>): (n: nat)
    requires |s| == 4
    ensures n < 0x1_0000_0000
  {
    ((s[0] as int * 0x100 + s[1] as int) * 0x100 + s[2] as int) * 0x100 + s[3] as int
  }

  lemma U32RoundTrip(n: nat)
    requires n < 0x1_0000_0000
    ensures FromU32(U32(n)) == n
  {
  }

  /** The most significant byte comes first. */
  lemma NetworkOrder(n: nat)
    requires n < 0x1_0000_0000
    ensures var s := U32(n);
            n == s[0] as int * 0x100_0000 + s[1] as int * 0x1_0000 + s[2] as int * 0x100 + s[3] as int
  {
  }

  class Buffer {
    var offset: int
    var len: int
    const data: array<byte>

    ghost predicate Valid()
      reads this
    {
      0 <= offset && 0 <= len && offset + len <= data.Length
    }

    ghost function Contents(): (s: seq<byte>)
      requires Valid()
      reads this, data
      ensures |s| == len
    {
      data[offset..offset + len]
    }

    /** alloc_buf. */
    constructor (capacity: nat)
      ensures Valid() && fresh(data) && data.Length == capacity && offset == 0 && Contents() == []
    {
      offset, len := 0, 0;
      data := new byte[capacity](_ => 0);
    }

    /** buf_init: restart empty, leaving `headroom` bytes for prepending. */
    method Init(headroom: int) returns (ok: bool)
      requires Valid()
      modifies this
      ensures Valid() && ok == (0 <= headroom <= data.Length)
      ensures if ok then offset == headroom && Contents() == [] else unchanged(this)
    {
      if headroom < 0 || headroom > data.Length {
        return false;
      }
      len := 0;
      offset := headroom;
      return true;
    }

    /** buf_clear. */
    method Clear()
      requires Valid()
      modifies this, data
      ensures Valid() && offset == 0 && Contents() == []
    {
      forall i | 0 <= i < data.Length { data[i] := 0; }
      len := 0;
      offset := 0;
    }

    /** buf_write: append, or refuse and change nothing. */
    method Write(src: seq<byte>) returns (ok: bool)
      requires Valid()
      modifies this, data
      ensures Valid() && offset == old(offset)
      ensures ok == (old(offset + len) + |src| <= data.Length)
      ensures Contents() == if ok then old(Contents()) + src else old(Contents())
    {
      if !(offset + len + |src| <= data.Length) {
        return false;
      }
      forall i | 0 <= i < |src| { data[offset + len + i] := src[i]; }
      len := len + |src|;
      return true;
    }

    /** buf_write_prepend: grow downward into the headroom, or refuse and change nothing. */
    method WritePrepend(src: seq<byte>) returns (ok: bool)
      requires Valid()
      modifies this, data
      ensures Valid() && ok == (|src| <= old(offset))
      ensures offset == if ok then old(offset) - |src| else old(offset)
      ensures Contents() == if ok then src + old(Contents()) else old(Contents())
    {
      if |src| > offset {
        return false;
      }
      offset := offset - |src|;
      len := len + |src|;
      forall i | 0 <= i < |src| { data[offset + i] := src[i]; }
      return true;
    }

    /** buf_read: take `size` bytes from the front, or refuse and change nothing. */
    method Read(size: int) returns (ok: bool, dest: seq<byte>)
      requires Valid()
      modifies this
      ensures Valid() && ok == (0 <= size <= old(len))
      ensures if ok then dest + Contents() == old(Contents()) && |dest| == size else dest == [] && unchanged(this)
    {
      if size < 0 || len < size {
        return false, [];
      }
      dest := data[offset..offset + size];
      offset := offset + size;
      len := len - size;
      return true, dest;
    }

    /** buf_inc_len. */
    method IncLen(inc: int) returns (ok: bool)
      requires Valid()
      modifies `len
      ensures Valid() && ok == (0 <= old(len) + inc && offset + old(len) + inc <= data.Length)
      ensures len == if ok then old(len) + inc else old(len)
      ensures inc <= 0 && ok ==> Contents() == old(Contents())[..len]
    {
      if !(0 <= len + inc && offset + len + inc <= data.Length) {
        return false;
      }
      len := len + inc;
      return true;
    }
  }
}
