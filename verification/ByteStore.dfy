/** What clients of an allocator see: names for byte strings, and how one request may change them. */
module ByteStore {
  import opened Bytes

  type Store = map<nat, seq<Byte>>

  datatype Op =
    | AllocOp(id: nat, len: nat)
    | ResizeOp(id: nat, newLen: nat)
    | RemapOp(id: nat, newLen: nat)
    | FreeOp(id: nat)
    | WriteOp(id: nat, index: nat, b: Byte)

  function Put(s: seq<Byte>, i: nat, b: Byte): seq<Byte>
    requires i < |s|
  {
    s[i := b]
  }

  /** memcpy of `n` bytes inside memory, as if all were read before any is written. */
  function Copied(mem: seq<Byte>, dst: nat, src: nat, n: nat): (r: seq<Byte>)
    ensures |r| == |mem|
  {
    seq(|mem|, i requires 0 <= i < |mem| =>
        if dst <= i < dst + n && src + (i - dst) < |mem| then mem[src + (i - dst)] else mem[i])
  }

  /** `now` has length `n` and the bytes of `was` as far as both reach. */
  predicate Resized(was: seq<Byte>, now: seq<Byte>, n: nat) {
    |now| == n && now[..Min(|was|, n)] == was[..Min(|was|, n)]
  }

  /** All names but one have the same bytes before and after. */
  predicate SameBut(m: Store, n: Store, id: nat) {
    m - {id} == n - {id}
  }

  /** One name was resized and nothing else changed. */
  predicate ResizedOnly(m: Store, n: Store, id: nat, newLen: nat) {
    id in m && id in n && SameBut(m, n, id) && Resized(m[id], n[id], newLen)
  }

  /**
   * How a request may turn store `m` into store `n`: a refused request changes nothing, a granted one changes
   * one name only, no granted bytes are lost, and resizing downwards is never refused.
   */
  ghost predicate StoreStep(m: Store, op: Op, n: Store) {
    match op
    case AllocOp(id, len) => n == m || (SameBut(m, n, id) && id in n && |n[id]| == len)
    case ResizeOp(id, newLen) => ResizedOnly(m, n, id, newLen) || (n == m && id in m && |m[id]| < newLen)
    case RemapOp(id, newLen) => ResizedOnly(m, n, id, newLen) || (n == m && id in m)
    case FreeOp(id) => id in m && n == m - {id}
    case WriteOp(id, index, b) => id in m && index < |m[id]| && n == m[id := Put(m[id], index, b)]
  }

  /** A store may go from `m` to `n` along the requests. */
  ghost predicate StoreRun(m: Store, ops: seq<Op>, n: Store)
    decreases |ops|
  {
    if ops == [] then m == n
    else exists k :: StoreStep(m, ops[0], k) && StoreRun(k, ops[1..], n)
  }

  lemma SameStore(m: Store, n: Store, id: nat)
    requires SameBut(m, n, id)
    ensures id in m && id in n && m[id] == n[id] ==> m == n
    ensures id in n ==> n == m[id := n[id]]
    ensures id !in n ==> n == m - {id}
    ensures id !in m && id !in n ==> m == n
  {
    forall j | j != id ensures (j in m <==> j in n) && (j in m ==> m[j] == n[j]) {
      assert j in m <==> j in m - {id};
      assert j in n <==> j in n - {id};
      assert j in m ==> (m - {id})[j] == m[j];
      assert j in n ==> (n - {id})[j] == n[j];
    }
  }

  lemma SamePlace(mem: seq<Byte>, ptr: nat, a: nat, b: nat)
    requires ptr + a <= |mem| && ptr + b <= |mem|
    ensures Resized(mem[ptr..ptr + a], mem[ptr..ptr + b], b)
  {
    var both := Min(a, b);
    assert mem[ptr..ptr + a][..both] == mem[ptr..ptr + both] == mem[ptr..ptr + b][..both];
  }

  lemma CopiedBytes(mem: seq<Byte>, dst: nat, src: nat, n: nat)
    requires src + n <= |mem| && dst + n <= |mem|
    ensures Copied(mem, dst, src, n)[dst..dst + n] == mem[src..src + n]
  {
    var a, b := Copied(mem, dst, src, n)[dst..dst + n], mem[src..src + n];
    forall i | 0 <= i < n ensures a[i] == b[i] {
      assert a[i] == Copied(mem, dst, src, n)[dst + i];
    }
  }

  lemma CopiedResizes(mem: seq<Byte>, dst: nat, src: nat, n: nat, m: nat)
    requires n <= m && src + n <= |mem| && dst + m <= |mem|
    ensures Resized(mem[src..src + n], Copied(mem, dst, src, n)[dst..dst + m], m)
  {
    var now := Copied(mem, dst, src, n);
    CopiedBytes(mem, dst, src, n);
    assert now[dst..dst + m][..n] == now[dst..dst + n];
  }
}
