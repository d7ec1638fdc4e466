/** The growable, size-limited buffer of the ACP client (runtime/fx_eink.c). */
module TextBuffers {
  import opened Bytes
  import opened JsonText

  const MAX_RESPONSE_BYTES: nat := 32768

  predicate Fits(held: seq<Byte>, more: seq<Byte>) {
    |held| + |more| <= MAX_RESPONSE_BYTES
  }

  class TextBuffer {
    var data: array<Byte>  // an array of length 0 is the null pointer; Length is the capacity
    var length: nat

    ghost predicate Valid()
      reads this, data
    {
      && length <= MAX_RESPONSE_BYTES
      && (data.Length == 0 ==> length == 0)
      && (data.Length > 0 ==> length < data.Length && data[length] == 0)
    }

    ghost function Contents(): seq<Byte>
      requires Valid()
      reads this, data
    {
      data[..length]
    }

    constructor ()
      ensures Valid() && Contents() == [] && data.Length == 0 && fresh(data)
    {
      data := new Byte[0];
      length := 0;
    }

    /** The realloc of buffer_append, with memory to give. */
    method Reallocate(capacity: nat)
      requires length <= data.Length && length < capacity
      modifies this
      ensures fresh(data) && data.Length == capacity && length == old(length)
      ensures data[..length] == old(data[..length])
    {
      var grown := new Byte[capacity];
      forall i | 0 <= i < length {
        grown[i] := data[i];
      }
      data := grown;
    }

    /** buffer_append; `room` is whether realloc has a block to give, if one is needed. */
    method Append(text: seq<Byte>, room: bool) returns (ok: bool)
      requires Valid()
      modifies this, data
      ensures Valid() && (data == old(data) || fresh(data))
      ensures ok == (Fits(old(Contents()), text) && (room || old(length) + |text| < old(data.Length)))
      ensures Contents() == if ok then old(Contents()) + text else old(Contents())
      ensures if ok then data.Length > 0 else data == old(data)
    {
      if |text| > MAX_RESPONSE_BYTES - length {
        return false;
      }
      var needed := length + |text| + 1;
      if needed > data.Length {
        var capacity := if data.Length > 0 then data.Length else 1024;
        while capacity < needed
          invariant capacity >= 1
        {
          capacity := capacity * 2;
        }
        if !room {
          return false;
        }
        Reallocate(capacity);
      }
      ghost var was := data[..length];
      assert was == old(Contents());
      forall i | 0 <= i < |text| {
        data[length + i] := text[i];
      }
      data[length + |text|] := 0;
      assert data[..length] == was;
      HoldsExtends(data[..], length, text);
      length := length + |text|;
      assert data[..][..length] == data[..length];
      ok := true;
    }

    method AppendUtf8(codepoint: nat) returns (ok: bool)
      requires Valid()
      modifies this, data
      ensures Valid() && (data == old(data) || fresh(data))
      ensures var bytes := if codepoint > 0xffff || IsSurrogate(codepoint) then [QUESTION] else Utf8(codepoint);
              && ok == Fits(old(Contents()), bytes)
              && Contents() == (if ok then old(Contents()) + bytes else old(Contents()))
      ensures if ok then data.Length > 0 else data == old(data)
    {
      var bytes: seq<Byte>;
      if codepoint <= 0x7f {
        bytes := [codepoint];
      } else if codepoint <= 0x7ff {
        bytes := [0xc0 + codepoint / 64, 0x80 + codepoint % 64];
      } else if codepoint <= 0xffff && !(codepoint >= 0xd800 && codepoint <= 0xdfff) {
        bytes := [0xe0 + codepoint / 4096, 0x80 + codepoint / 64 % 64, 0x80 + codepoint % 64];
      } else {
        bytes := [QUESTION];
      }
      ok := Append(bytes, true);
    }
  }
}
