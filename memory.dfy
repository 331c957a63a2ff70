/** The process's byte-addressed memory. The model maps the addresses
    [0, |m|) of the address space; an access outside them is a data abort. */
module Memory {
  import opened Words
  import opened Faults

  predicate Mapped(m: seq<byte>, addr: int, width: nat) {
    0 <= addr && addr + width <= |m|
  }

  /** Reads a little-endian word of `width` bytes at `addr`. */
  function Load(m: seq<byte>, addr: int, width: nat): (r: Option<nat>)
    ensures r.Some? <==> Mapped(m, addr, width)
    ensures r.Some? ==> r.value < Pow256(width)
  {
    if Mapped(m, addr, width) then Some(DecodeLE(m[addr..addr + width])) else None
  }

  function Load32(m: seq<byte>, addr: int): (r: Option<u32>)
    ensures r.Some? <==> Mapped(m, addr, 4)
    ensures r.Some? ==> Load(m, addr, 4) == Some(r.value)
  {
    Pow256Widths();
    match Load(m, addr, 4)
    case None => None
    case Some(v) => Some(v)
  }

  function Load64(m: seq<byte>, addr: int): (r: Option<u64>)
    ensures r.Some? <==> Mapped(m, addr, 8)
    ensures r.Some? ==> Load(m, addr, 8) == Some(r.value)
  {
    Pow256Widths();
    match Load(m, addr, 8)
    case None => None
    case Some(v) => Some(v)
  }

  /** Writes `v` as a little-endian word of `width` bytes at `addr`. */
  function Store(m: seq<byte>, addr: int, width: nat, v: nat): (r: seq<byte>)
    requires Mapped(m, addr, width) && v < Pow256(width)
    ensures |r| == |m|
  {
    var bytes := EncodeLE(v, width);
    seq(|m|, i requires 0 <= i < |m| => if addr <= i < addr + width then bytes[i - addr] else m[i])
  }

  /** A read of the stored word gives `v` back, and every byte outside the
      word keeps its value. */
  lemma StoreThenLoad(m: seq<byte>, addr: int, width: nat, v: nat)
    requires Mapped(m, addr, width) && v < Pow256(width)
    ensures Load(Store(m, addr, width, v), addr, width) == Some(v)
    ensures forall i :: 0 <= i < |m| && !(addr <= i < addr + width) ==> Store(m, addr, width, v)[i] == m[i]
  {
    var r, bytes := Store(m, addr, width, v), EncodeLE(v, width);
    forall i | 0 <= i < width ensures r[addr..addr + width][i] == bytes[i] {
      assert r[addr + i] == bytes[i];
    }
    assert r[addr..addr + width] == bytes;
    assert Load(r, addr, width) == Some(DecodeLE(bytes));
  }

  /** Two memories of the same size that agree on [at, at + w) read the same
      word there. */
  lemma SameBytesSameLoad(r: seq<byte>, m: seq<byte>, at: int, w: nat)
    requires |r| == |m|
    requires forall i :: 0 <= i < |m| && at <= i < at + w ==> r[i] == m[i]
    ensures Load(r, at, w) == Load(m, at, w)
  {
    if Mapped(m, at, w) {
      var after, before := r[at..at + w], m[at..at + w];
      forall i | 0 <= i < w ensures after[i] == before[i] {
        assert r[at + i] == m[at + i];
      }
      assert after == before;
    }
  }

  /** A read that does not overlap a write sees the memory as it was. */
  lemma LoadAfterDisjointStore(m: seq<byte>, addr: int, width: nat, v: nat, at: int, w: nat)
    requires Mapped(m, addr, width) && v < Pow256(width)
    requires at + w <= addr || addr + width <= at
    ensures Load(Store(m, addr, width, v), at, w) == Load(m, at, w)
  {
    StoreThenLoad(m, addr, width, v);
    SameBytesSameLoad(Store(m, addr, width, v), m, at, w);
  }

  /** Writes the word in place: the array afterwards is `Store` of the array before. */
  method Write(mem: array<byte>, addr: int, width: nat, v: nat)
    requires Mapped(mem[..], addr, width) && v < Pow256(width)
    modifies mem
    ensures mem[..] == Store(old(mem[..]), addr, width, v)
  {
    var bytes := EncodeLE(v, width);
    forall i | addr <= i < addr + width {
      mem[i] := bytes[i - addr];
    }
  }

  /** Memory after memset(start, 0, end - start). */
  function Zeroed(m: seq<byte>, start: int, end: int): (r: seq<byte>)
    ensures |r| == |m|
  {
    seq(|m|, i requires 0 <= i < |m| => if start <= i < end then 0 else m[i])
  }

  /** memset(start, 0, end - start): every byte of [start, end) becomes zero and
      every other byte keeps its value. */
  method ZeroFill(mem: array<byte>, start: int, end: int)
    requires 0 <= start <= end <= mem.Length
    modifies mem
    ensures mem[..] == Zeroed(old(mem[..]), start, end)
    ensures forall i :: start <= i < end ==> mem[i] == 0
    ensures forall i :: 0 <= i < mem.Length && !(start <= i < end) ==> mem[i] == old(mem[i])
  {
    var p := start;
    while p < end
      invariant start <= p <= end
      invariant forall i :: start <= i < p ==> mem[i] == 0
      invariant forall i :: 0 <= i < mem.Length && !(start <= i < p) ==> mem[i] == old(mem[i])
    {
      mem[p] := 0;
      p := p + 1;
    }
  }
}
