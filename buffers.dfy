/**
 * The `buffer` record of ribsu-util: a byte store of fixed capacity `max`
 * whose first `len` bytes are its contents. The store is attached once
 * (`buf_attach`), so `data` is constant and `max` is `data.Length`.
 */
module Buffers {
  import opened Bytes

  class Buffer {
    const data: array<byte>
    var len: nat

    /** `len <= max`: every operation but a failed `buf_copy` keeps this. */
    ghost predicate Valid()
      reads this
    {
      len <= data.Length
    }

    /** The bytes the buffer currently holds. */
    function Contents(): seq<byte>
      reads this, data
      requires Valid()
    {
      data[..len]
    }

    /** buf_attach: use `store` as the byte store, capacity its length, empty. */
    constructor Attach(store: array<byte>)
      ensures data == store && len == 0
      ensures Valid() && Contents() == []
    {
      data := store;
      len := 0;
    }

    /**
     * buf_copy: `len` takes the source's length first; only when that fits
     * the capacity are the bytes copied. On failure the buffer is left with
     * `len > max` and its store untouched.
     */
    method Copy(src: seq<byte>) returns (ok: bool)
      modifies this, data
      ensures len == |src|
      ensures ok <==> |src| <= data.Length
      ensures ok ==> Valid() && Contents() == src
      ensures ok ==> data[|src|..] == old(data[|src|..])
      ensures !ok ==> !Valid() && data[..] == old(data[..])
    {
      len := |src|;
      if len > data.Length {
        return false;
      }
      var i := 0;
      while i < |src|
        invariant 0 <= i <= |src| && len == |src|
        invariant data[..i] == src[..i]
        invariant data[i..] == old(data[i..])
      {
        data[i] := src[i];
        i := i + 1;
      }
      return true;
    }

    /**
     * buf_append: refuses (and changes nothing) when the result would
     * exceed the capacity; otherwise the source bytes follow the old ones.
     */
    method Append(src: seq<byte>) returns (ok: bool)
      requires Valid()
      modifies this, data
      ensures Valid()
      ensures ok <==> old(len) + |src| <= data.Length
      ensures ok ==> Contents() == old(Contents()) + src
      ensures ok ==> data[..] == old(data[..len]) + src + old(data[len + |src|..])
      ensures !ok ==> len == old(len) && data[..] == old(data[..])
      ensures forall i | len <= i < data.Length :: data[i] == old(data[i])
    {
      if len + |src| > data.Length {
        return false;
      }
      ghost var d0 := data[..];
      var i := 0;
      while i < |src|
        invariant 0 <= i <= |src| && len == old(len)
        invariant forall j | 0 <= j < len :: data[j] == d0[j]
        invariant forall j | 0 <= j < i :: data[len + j] == src[j]
        invariant forall j | len + i <= j < data.Length :: data[j] == d0[j]
      {
        data[len + i] := src[i];
        i := i + 1;
      }
      assert data[..] == d0[..len] + src + d0[len + |src|..];
      len := len + |src|;
      return true;
    }

    /**
     * buf_slide: drop the first `k` bytes and move the rest to the front;
     * sliding at least the whole contents empties the buffer.
     */
    method Slide(k: nat)
      requires Valid()
      modifies this, data
      ensures Valid()
      ensures k >= old(len) ==> len == 0
      ensures k < old(len) ==> len == old(len) - k && Contents() == old(Contents())[k..]
      ensures k < old(len) ==> data[..] == old(data[k..len]) + old(data[len - k..])
      ensures k >= old(len) ==> data[..] == old(data[..])
    {
      if k >= len {
        len := 0;
        return;
      }
      ghost var d0 := data[..];
      var i := 0;
      while i < len - k
        invariant len == old(len) && 0 <= i <= len - k
        invariant forall j | 0 <= j < i :: data[j] == d0[k + j]
        invariant forall j | i <= j < data.Length :: data[j] == d0[j]
      {
        data[i] := data[i + k];
        i := i + 1;
      }
      assert data[..len - k] == d0[k..len];
      assert data[len - k..] == d0[len - k..];
      assert data[..] == data[..len - k] + data[len - k..];
      len := len - k;
    }

    /** bcopy of `src` to the front of the store; the length is left alone. */
    method Overwrite(src: seq<byte>)
      requires |src| <= data.Length
      modifies data
      ensures data[..] == src + old(data[|src|..])
    {
      var i := 0;
      while i < |src|
        invariant 0 <= i <= |src|
        invariant data[..i] == src[..i]
        invariant data[i..] == old(data[i..])
      {
        data[i] := src[i];
        i := i + 1;
      }
      assert data[..] == data[..|src|] + data[|src|..];
    }
  }
}
