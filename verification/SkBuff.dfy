/** The driver's socket buffer: a fixed allocation and the length in use. */
module SkBuffs {

  class SkBuff {
    const maxLen: nat
    const data: array<bv8>
    var dataLen: nat

    ghost predicate Valid()
      reads this
    {
      dataLen <= maxLen && data.Length == maxLen
    }

    ghost function Contents(): (s: seq<bv8>)
      requires Valid()
      reads this, data
      ensures |s| == dataLen
    {
      data[..dataLen]
    }

    // The bytes past the contents are still as allocated.
    ghost predicate ClearTail()
      requires Valid()
      reads this, data
    {
      forall i :: dataLen <= i < maxLen ==> data[i] == 0
    }

    constructor (len: nat)
      ensures Valid() && maxLen == len && fresh(data)
      ensures Contents() == [] && ClearTail()
    {
      maxLen := len;
      data := new bv8[len](_ => 0);
      dataLen := 0;
    }

    // Appends one byte; refuses when the allocation is full.
    method Put(b: bv8) returns (ok: bool)
      requires Valid()
      modifies this`dataLen, data
      ensures Valid()
      ensures ok == (old(dataLen) < maxLen)
      ensures Contents() == if ok then old(Contents()) + [b] else old(Contents())
      ensures old(ClearTail()) ==> ClearTail()
    {
      if dataLen + 1 > maxLen {
        return false;
      }
      data[dataLen] := b;
      dataLen := dataLen + 1;
      return true;
    }

    // Cuts the tail; a length that is not shorter is refused.
    method Trim(len: nat)
      requires Valid()
      modifies this`dataLen
      ensures Valid()
      ensures dataLen == if len < old(dataLen) then len else old(dataLen)
    {
      if dataLen > len {
        dataLen := len;
      }
    }

    // Drops the first len bytes; what lies past the moved contents is left as it was.
    method Pull(len: nat)
      requires Valid() && len <= dataLen
      modifies this`dataLen, data
      ensures Valid() && dataLen == old(dataLen) - len
      ensures data[..] == old(data[len..dataLen]) + old(data[dataLen - len..])
    {
      dataLen := dataLen - len;
      var n := dataLen;
      forall i | 0 <= i < n {
        data[i] := data[len + i];
      }
    }
  }
}
