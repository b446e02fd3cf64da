/** First-free allocation from a bitmap with a cached position (userfs/bitmap.c). */
module Bitmap {
  import opened Arith

  /**
   The bits of the map and of the memory behind it: bits[..n] are the map's own, `first` is first_free_pos
   and `used` is used_bits_count.
   */
  datatype Map = Map(n: nat, bits: seq<bool>, used: int, first: nat)

  function Count(bits: seq<bool>): (k: nat)
    ensures k <= |bits|
  {
    if bits == [] then 0 else Count(bits[..|bits| - 1]) + if bits[|bits| - 1] then 1 else 0
  }

  /** Where the scanning loop stops when it starts at `pos`: it tests no bound, only the bit. */
  function Scan(bits: seq<bool>, pos: nat): (q: nat)
    requires pos <= |bits|
    ensures pos <= q <= |bits| && (forall k :: pos <= k < q ==> bits[k]) && (q < |bits| ==> !bits[q])
    decreases |bits| - pos
  {
    if pos < |bits| && bits[pos] then Scan(bits, pos + 1) else pos
  }

  /** The position behind `first`, wrapping at the last bit. */
  function After(first: nat, n: nat): (next: nat)
    requires first < n
    ensures next < n
  {
    if first + 1 == n then 0 else first + 1
  }

  lemma AfterIsMod(first: nat, n: nat)
    requires first < n
    ensures After(first, n) == (first + 1) % n
  {
    if first + 1 == n {
      DivModUnique(n, 1, 0, n);
    } else {
      ModSmall(first + 1, n);
    }
  }

  /** bitmap_init over memory whose bits behind the map are `rest`. */
  function Init(n: nat, rest: seq<bool>): (b: Map) {
    Map(n, seq(n, _ => false) + rest, 0, 0)
  }

  /** bitmap_get_first_free; -1 when the cached position is past the map. */
  function GetFirstFree(b: Map): (r: (Map, int))
    requires b.first < b.n < |b.bits| || b.first == b.n
  {
    if b.first == b.n then (b, -1)
    else
      var bits := b.bits[b.first := true];
      (b.(bits := bits, used := b.used + 1, first := Scan(bits, After(b.first, b.n))), b.first as int)
  }

  /** The bit just behind the map is clear, so the scan stops there at the latest. */
  predicate Sentinel(b: Map) {
    b.n < |b.bits| && !b.bits[b.n]
  }

  /** The cached position is the least clear bit, or `n` when there is none, and the count is right. */
  predicate Exact(b: Map) {
    && b.n < |b.bits| && b.first <= b.n
    && (forall k :: 0 <= k < b.first ==> b.bits[k])
    && (b.first < b.n ==> !b.bits[b.first])
    && b.used == Count(b.bits[..b.n])
  }

  predicate Full(b: Map) {
    b.n <= |b.bits| && forall k :: 0 <= k < b.n ==> b.bits[k]
  }

  lemma {:induction false} CountSet(bits: seq<bool>, i: nat)
    requires i < |bits| && !bits[i]
    ensures Count(bits[i := true]) == Count(bits) + 1
  {
    var k := |bits| - 1;
    if i < k {
      assert bits[i := true][..k] == bits[..k][i := true];
      CountSet(bits[..k], i);
    } else {
      assert bits[i := true][..k] == bits[..k];
    }
  }

  lemma {:induction false} CountAll(bits: seq<bool>)
    ensures Count(bits) == |bits| <==> forall k :: 0 <= k < |bits| ==> bits[k]
    ensures Count(bits) == 0 <==> forall k :: 0 <= k < |bits| ==> !bits[k]
  {
    if bits != [] {
      var p := bits[..|bits| - 1];
      CountAll(p);
      assert forall k :: 0 <= k < |p| ==> p[k] == bits[k];
    }
  }

  lemma InitExact(n: nat, rest: seq<bool>)
    requires |rest| > 0
    ensures Exact(Init(n, rest)) && (Sentinel(Init(n, rest)) <==> !rest[0])
  {
    CountAll(Init(n, rest).bits[..n]);
  }

  /** The new cached position, on the bits alone. */
  lemma NextFirst(bits: seq<bool>, n: nat, first: nat)
    requires first < n < |bits| && !bits[n] && bits[first] && forall k :: 0 <= k < first ==> bits[k]
    ensures var q := Scan(bits, After(first, n));
      q <= n && (forall k :: 0 <= k < q ==> bits[k]) && (q < n ==> !bits[q])
  {
  }

  /**
   With a clear sentinel every call returns the least clear bit and sets it, or -1 exactly when all bits are
   set, and keeps the cache exact, also across the wrap at the last bit.
   */
  lemma FirstFreeExact(b: Map)
    requires Exact(b) && Sentinel(b)
    ensures var (b', r) := GetFirstFree(b);
      && Exact(b') && Sentinel(b') && b'.n == b.n
      && (r == -1 <==> Full(b)) && (r == -1 ==> b' == b)
      && (r != -1 ==>
            && 0 <= r < b.n && !b.bits[r] && (forall k :: 0 <= k < r ==> b.bits[k])
            && b'.bits == b.bits[r := true] && b'.used == b.used + 1)
  {
    if b.first < b.n {
      var bits := b.bits[b.first := true];
      NextFirst(bits, b.n, b.first);
      assert bits[..b.n] == b.bits[..b.n][b.first := true];
      CountSet(b.bits[..b.n], b.first);
    }
  }

  /**
   Without the hypothesis: a call that takes a bit keeps the cache exact if and only if another bit of the map is
   clear or the bit behind the map is.
   */
  lemma SentinelNeeded(b: Map)
    requires Exact(b) && b.first < b.n
    ensures Exact(GetFirstFree(b).0) <==> !b.bits[b.n] || exists k :: 0 <= k < b.n && k != b.first && !b.bits[k]
  {
    var bits := b.bits[b.first := true];
    assert bits[..b.n] == b.bits[..b.n][b.first := true];
    CountSet(b.bits[..b.n], b.first);
    var q := Scan(bits, After(b.first, b.n));
    if k :| 0 <= k < b.n && k != b.first && !b.bits[k] {
      assert !bits[k] && After(b.first, b.n) == b.first + 1 <= k;
      assert q <= k;
    } else if !b.bits[b.n] {
      NextFirst(bits, b.n, b.first);
    } else {
      assert forall k :: 0 <= k <= b.n ==> bits[k];
      assert q > b.n;
    }
  }

  // ---------------------------------------------------------------------------------------------
  // bitmap_clear

  /** The byte that holds bit `pos` is zero. */
  predicate ByteZero(bits: seq<bool>, pos: nat)
    requires 8 * (pos / 8) + 8 <= |bits|
  {
    forall k :: 8 * (pos / 8) <= k < 8 * (pos / 8) + 8 ==> !bits[k]
  }

  /** bitmap_clear: it refuses where the byte of `pos` is zero; else its or-ing with zero leaves every bit as it was. */
  function Clear(b: Map, pos: nat): (r: (Map, int))
    requires 8 * (pos / 8) + 8 <= |b.bits|
  {
    if ByteZero(b.bits, pos) then (b, -1)
    else (b.(used := b.used - 1, first := if b.first > pos then pos else b.first), 0)
  }

  /** A clear keeps the map exact only where it refuses: it never clears a bit, and moves the counters. */
  lemma ClearBreaks(b: Map, pos: nat)
    requires Exact(b) && 8 * (pos / 8) + 8 <= |b.bits|
    ensures Clear(b, pos).0.bits == b.bits
    ensures Exact(Clear(b, pos).0) <==> forall k :: 8 * (pos / 8) <= k < 8 * (pos / 8) + 8 ==> !b.bits[k]
    ensures Clear(b, pos).1 == -1 <==> forall k :: 8 * (pos / 8) <= k < 8 * (pos / 8) + 8 ==> !b.bits[k]
    ensures Clear(b, pos).1 != -1 ==> Clear(b, pos).1 == 0 && Clear(b, pos).0.used + 1 == Count(b.bits[..b.n])
  {
  }

  /** After clearing a used position below the cache, the next allocation hands that used position out again. */
  lemma ClearHandsOutTwice(b: Map, pos: nat)
    requires Exact(b) && pos < b.first && 8 * (pos / 8) + 8 <= |b.bits|
    ensures b.bits[pos] && GetFirstFree(Clear(b, pos).0).1 == pos
  {
    assert 8 * (pos / 8) <= pos < 8 * (pos / 8) + 8;
  }

  // ---------------------------------------------------------------------------------------------
  // The map in memory

  /** Bit `i` of a byte. */
  predicate BitOf(byte: bv8, i: nat)
    requires i < 8
  {
    byte & (1 << i) != 0
  }

  function Bits(cells: seq<bv8>): (bits: seq<bool>)
    ensures |bits| == 8 * |cells|
  {
    seq(8 * |cells|, p requires 0 <= p < 8 * |cells| => BitOf(cells[p / 8], p % 8))
  }

  lemma OrSetsBit(byte: bv8, i: nat, j: nat)
    requires i < 8 && j < 8
    ensures BitOf(byte | (1 << i), j) == (i == j || BitOf(byte, j))
  {
    assert i == 0 || i == 1 || i == 2 || i == 3 || i == 4 || i == 5 || i == 6 || i == 7;
    assert j == 0 || j == 1 || j == 2 || j == 3 || j == 4 || j == 5 || j == 6 || j == 7;
  }

  /** Setting a bit through its byte sets that bit and no other. */
  lemma SetThroughByte(cells: seq<bv8>, pos: nat)
    requires pos < 8 * |cells|
    ensures Bits(cells[pos / 8 := cells[pos / 8] | (1 << (pos % 8))]) == Bits(cells)[pos := true]
  {
    var cells' := cells[pos / 8 := cells[pos / 8] | (1 << (pos % 8))];
    forall q | 0 <= q < 8 * |cells| ensures Bits(cells')[q] == Bits(cells)[pos := true][q] {
      OrSetsBit(cells[pos / 8], pos % 8, q % 8);
    }
  }

  /** The position the scan starts from. */
  method Advance(first: nat, n: nat) returns (next: nat)
    requires first < n
    ensures next == After(first, n)
  {
    AfterIsMod(first, n);
    next := (first + 1) % n;
  }

  class Bitmap {
    const bytes: nat
    const cells: array<bv8>
    var used: int
    var first: nat

    ghost predicate Matches(b: Map)
      reads this, cells
    {
      bytes < cells.Length && b.n == 8 * bytes && b.bits == Bits(cells[..]) && b.used == used && b.first == first
    }

    /** bitmap_init; bytes behind the map are left as they are. */
    constructor (bytes: nat, cells: array<bv8>)
      requires bytes < cells.Length
      modifies cells
      ensures this.cells == cells && this.bytes == bytes
      ensures Matches(Init(8 * bytes, Bits(old(cells[..]))[8 * bytes..]))
    {
      this.bytes, this.cells := bytes, cells;
      used, first := 0, 0;
      for i := 0 to bytes
        invariant forall k :: 0 <= k < cells.Length ==> cells[k] == if k < i then 0 else old(cells[k])
      {
        cells[i] := 0;
      }
      new;
      ghost var b := Init(8 * bytes, Bits(old(cells[..]))[8 * bytes..]);
      assert b.bits == Bits(cells[..]);
    }

    /** bitmap_set: the bit is or-ed in, and the counter moves whether or not it was clear. */
    method Set(pos: nat)
      requires pos < 8 * cells.Length
      modifies this`used, cells
      ensures Bits(cells[..]) == Bits(old(cells[..]))[pos := true] && used == old(used) + 1
    {
      SetThroughByte(cells[..], pos);
      cells[pos / 8] := cells[pos / 8] | (1 << (pos % 8));
      used := used + 1;
    }

    /** The scanning loop; its bound test has no effect, the clear bit at `stop` ends it. */
    method ScanFrom(start: nat, ghost stop: nat) returns (q: nat)
      requires start <= stop < 8 * cells.Length && !Bits(cells[..])[stop]
      ensures q == Scan(Bits(cells[..]), start)
    {
      ghost var bits := Bits(cells[..]);
      q := start;
      while cells[q / 8] & (1 << (q % 8)) != 0
        invariant start <= q <= stop && Scan(bits, q) == Scan(bits, start)
        decreases stop - q
      {
        assert bits[q];
        q := q + 1;
      }
      assert !bits[q];
    }

    /** bitmap_get_first_free */
    method TakeFirstFree(ghost b: Map) returns (pos: int, ghost b': Map)
      requires Matches(b) && Exact(b) && Sentinel(b)
      modifies this`used, this`first, cells
      ensures (b', pos) == GetFirstFree(b) && Matches(b') && Exact(b') && Sentinel(b')
    {
      b' := GetFirstFree(b).0;
      if first == 8 * bytes {
        return -1, b';
      }
      assert Sentinel(b') && Exact(b') by { FirstFreeExact(b); }
      pos := first;
      var n := 8 * bytes;
      var next := Advance(first, n);
      Set(first);
      first := ScanFrom(next, n);
    }
  }
}
