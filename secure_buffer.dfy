/**
 * SecureBuffer (src/localsports/src/security_layer.cpp, interface in
 * src/localsports/header/security_layer.h): an owned byte region `data_` of
 * `size_` bytes that is zeroed before it is released.
 *
 * `data` is null exactly when `size` is 0. Storage handed back to the
 * allocator is not deallocated in Dafny, so the model can state what the
 * source promises about it: every byte of it is zero after the operation.
 */
module SecureBuffers {
  import opened Common

  /** What fresh `new unsigned char[n]` storage holds in the model (C++ leaves it indeterminate). */
  const POISON: byte := 0xCD

  predicate AllZero(s: Bytes)
  {
    forall i :: 0 <= i < |s| ==> s[i] == 0
  }

  function Zeros(n: nat): (r: Bytes)
    ensures |r| == n && AllZero(r)
  {
    seq(n, _ => 0)
  }

  /**
   * secure_bzero(ptr, len): does nothing for a null pointer or a zero length;
   * otherwise stores 0 into each of the first `len` bytes, one at a time.
   */
  method SecureBZero(p: array?<byte>, len: nat)
    requires p != null ==> len <= p.Length
    modifies p
    ensures p != null ==> forall i :: 0 <= i < len ==> p[i] == 0
    ensures p != null ==> forall i :: len <= i < p.Length ==> p[i] == old(p[i])
  {
    if p == null || len == 0 {
      return;
    }
    var i := 0;
    while i < len
      invariant 0 <= i <= len
      invariant forall j :: 0 <= j < i ==> p[j] == 0
      invariant forall j :: i <= j < p.Length ==> p[j] == old(p[j])
    {
      p[i] := 0;
      i := i + 1;
    }
  }

  class SecureBuffer {
    var data: array?<byte>
    var size: nat

    ghost predicate Valid()
      reads this
    {
      (data == null <==> size == 0) && (data != null ==> data.Length == size)
    }

    /** The bytes the buffer holds. */
    function Contents(): (r: Bytes)
      reads this, data
      requires Valid()
      ensures |r| == size
    {
      if data == null then [] else data[..]
    }

    /** SecureBuffer(n): n zero bytes in fresh storage, or null storage for n == 0. */
    constructor (n: nat)
      ensures Valid() && size == n
      ensures Contents() == Zeros(n)
      ensures n > 0 ==> fresh(data)
    {
      size := 0;
      data := null;
      new;
      if n > 0 {
        var a := new byte[n](_ => POISON);
        data := a;
        size := n;
        SecureBZero(a, n);
        assert a[..] == Zeros(n);
      }
    }

    /** The move constructor: takes the other buffer's storage and leaves it empty. */
    constructor MoveFrom(other: SecureBuffer)
      requires other.Valid()
      modifies other
      ensures Valid() && other.Valid()
      ensures data == old(other.data) && size == old(other.size)
      ensures Contents() == old(other.Contents())
      ensures other.data == null && other.size == 0
    {
      data := other.data;
      size := other.size;
      new;
      other.data := null;
      other.size := 0;
    }

    /** cleanse(): zeroes every byte; storage and size stay. */
    method Cleanse()
      requires Valid()
      modifies data
      ensures Valid()
      ensures Contents() == Zeros(size)
    {
      if data != null && size > 0 {
        SecureBZero(data, size);
        assert data[..] == Zeros(size);
      }
    }

    /**
     * Move assignment. For a different buffer: zero the own storage, take the
     * other's storage and size, and leave the other empty. Self-assignment
     * changes nothing. Two buffers never share storage (copying is deleted).
     */
    method MoveAssign(other: SecureBuffer)
      requires Valid() && other.Valid()
      requires other != this ==> data == null || data != other.data
      modifies this, other, data
      ensures Valid() && other.Valid()
      ensures other == this ==> data == old(data) && size == old(size) && Contents() == old(Contents())
      ensures other != this ==> data == old(other.data) && size == old(other.size)
      ensures other != this ==> Contents() == old(other.Contents())
      ensures other != this ==> other.data == null && other.size == 0
      ensures other != this && old(data) != null ==> AllZero(old(data)[..])
    {
      if other != this {
        Cleanse();
        data := other.data;
        size := other.size;
        other.data := null;
        other.size := 0;
      }
    }

    /**
     * resize(n): keeps the first min(size, n) bytes, zero-fills any new tail and
     * zeroes the old storage before releasing it. Resizing to the current size
     * does nothing; resizing to 0 leaves null storage.
     */
    method Resize(newSize: nat)
      requires Valid()
      modifies this, data
      ensures Valid() && size == newSize
      ensures newSize == old(size) ==> data == old(data) && Contents() == old(Contents())
      ensures newSize == 0 ==> data == null
      ensures forall i :: 0 <= i < Min(old(size), newSize) ==> Contents()[i] == old(Contents())[i]
      ensures forall i :: Min(old(size), newSize) <= i < newSize ==> Contents()[i] == 0
      ensures newSize != old(size) && old(data) != null ==> AllZero(old(data)[..])
      ensures newSize != old(size) && newSize > 0 ==> fresh(data)
    {
      if newSize == size {
        return;
      }
      if newSize == 0 {
        Cleanse();
        data := null;
        size := 0;
        return;
      }
      var newData := new byte[newSize](_ => POISON);
      var copyLen := Min(size, newSize);
      if copyLen > 0 && data != null {
        var i := 0;
        while i < copyLen
          invariant 0 <= i <= copyLen
          invariant forall j :: 0 <= j < i ==> newData[j] == data[j]
          invariant forall j :: i <= j < newSize ==> newData[j] == POISON
          modifies newData
        {
          newData[i] := data[i];
          i := i + 1;
        }
      }
      if newSize > size {
        var i := copyLen;
        while i < newSize
          invariant copyLen <= i <= newSize
          invariant forall j :: 0 <= j < copyLen ==> newData[j] == old(Contents())[j]
          invariant forall j :: copyLen <= j < i ==> newData[j] == 0
          modifies newData
        {
          newData[i] := 0;
          i := i + 1;
        }
      }
      ghost var kept := newData[..];
      Cleanse();
      assert newData[..] == kept;
      data := newData;
      size := newSize;
    }

    /** The destructor: cleanse, then release the storage. */
    method Dispose()
      requires Valid()
      modifies this, data
      ensures Valid() && data == null && size == 0
      ensures old(data) != null ==> AllZero(old(data)[..])
    {
      Cleanse();
      data := null;
      size := 0;
    }
  }
}
