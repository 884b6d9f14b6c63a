/** The bounded byte buffer of src/crypto/DataWrap.cpp. */
module DataWrap {
  import opened Bytes

  class DataWrap {
    const data: array<byte>
    var offset: nat

    ghost predicate Valid()
      reads this
    {
      offset <= data.Length
    }

    ghost function Contents(): (s: seq<byte>)
      requires Valid()
      reads this, data
    {
      data[..offset]
    }

    constructor (length: nat)
      ensures Valid() && Contents() == [] && data.Length == length && fresh(data)
    {
      data := new byte[length](_ => 0);
      offset := 0;
    }

    /** Appends all of `bytes` or, when they do not fit, nothing. */
    method Append(bytes: seq<byte>) returns (ok: bool)
      requires Valid()
      modifies this`offset, data
      ensures Valid() && (ok <==> |old(Contents())| + |bytes| <= data.Length)
      ensures Contents() == if ok then old(Contents()) + bytes else old(Contents())
    {
      if offset + |bytes| > data.Length {
        return false;
      }
      Put(bytes, data, offset);
      offset := offset + |bytes|;
      ok := true;
    }
  }
}
