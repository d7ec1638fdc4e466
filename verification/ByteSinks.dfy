/** Where response bytes are collected (runtime/fx_wamr_native.c, lines 91-128 and 307-349). */
module ByteSinks {
  import opened Bytes

  const MAX_STREAM_BYTES: nat := 2097152

  /** A place response bytes are collected in: a borrowed buffer of fixed size, or an owned one that grows. */
  class ByteSink {
    var bytes: array<Byte>  // an array of length 0 is the null pointer
    var len: nat
    var cap: nat
    const owned: bool
    var overflow: bool

    ghost predicate Valid()
      reads this, bytes
    {
      && len <= cap
      && (owned ==> cap == MAX_STREAM_BYTES && (bytes.Length == 0 || bytes.Length == cap) && len <= bytes.Length)
      && (!owned ==> cap == bytes.Length)
    }

    ghost function Contents(): seq<Byte>
      requires Valid()
      reads this, bytes
    {
      bytes[..len]
    }

    lemma Room()
      requires Valid()
      ensures |Contents()| == len <= cap
    {
    }

    constructor Owned()
      ensures Valid() && Contents() == [] && owned && !overflow && fresh(bytes)
    {
      bytes := new Byte[0];
      len, cap, owned, overflow := 0, MAX_STREAM_BYTES, true, false;
    }

    constructor Borrowed(buffer: array<Byte>)
      ensures Valid() && Contents() == [] && !owned && !overflow && bytes == buffer && cap == buffer.Length
    {
      bytes := buffer;
      len, cap, owned, overflow := 0, buffer.Length, false, false;
    }

    /**
     * write_body: all of the chunk, or nothing of it and a raised overflow flag; `room` is whether realloc has a
     * block to give, if one is asked for.
     */
    method WriteBody(chunk: seq<Byte>, room: bool) returns (count: nat)
      requires Valid()
      modifies this, bytes
      ensures Valid() && cap == old(cap) && (bytes == old(bytes) || (owned && fresh(bytes)))
      ensures var fits := |chunk| <= old(cap) - old(len) && (room || !owned || old(len) + |chunk| == 0);
              && count == (if fits then |chunk| else 0)
              && Contents() == (if fits then old(Contents()) + chunk else old(Contents()))
              && overflow == (old(overflow) || !fits)
    {
      if |chunk| > cap - len {
        overflow := true;
        return 0;
      }
      var wanted := len + |chunk|;
      if owned && wanted > 0 {
        var next := if cap < 4096 then 4096 else cap;
        assert wanted <= next;  // the test above leaves the doubling loop no turn to take
        if next > MAX_STREAM_BYTES {
          next := MAX_STREAM_BYTES;
        }
        if !room {
          overflow := true;
          return 0;
        }
        var grown := new Byte[next];
        forall i | 0 <= i < len {
          grown[i] := bytes[i];
        }
        bytes := grown;
        cap := next;
      }
      ghost var was := bytes[..len];
      assert was == old(Contents());
      forall i | 0 <= i < |chunk| {
        bytes[len + i] := chunk[i];
      }
      assert bytes[..len] == was;
      HoldsExtends(bytes[..], len, chunk);
      len := len + |chunk|;
      assert bytes[..][..len] == bytes[..len];
      count := |chunk|;
    }
  }
}
