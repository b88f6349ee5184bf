/**
  The hash table of lzf_compress in src/lzf/lzf_c.c: which slot three bytes have, what a slot says
  about the position that looks at it, and how far a run of one repeated byte gets.
*/
module LzfTable {
  import opened Bytes
  import opened LzfFormat

  const HSIZE := 65536
  const ADDRESS_LIMIT := 0x1_0000_0000_0000_0000

  /** A slot holds whatever 64-bit pattern was there before; zero is the null pointer. */
  type Address = x: int | 0 <= x < ADDRESS_LIMIT

  type Hash = x: int | 0 <= x < 0x1_0000_0000

  /** FRST, which on the last byte of the input also reads the byte beyond it. */
  function First(input: seq<Byte>, beyond: Byte, p: nat): Hash
    requires p < |input|
  {
    var a: int, b: int := input[p], if p + 1 < |input| then input[p + 1] else beyond;
    a * 256 + b
  }

  function Next(v: Hash, input: seq<Byte>, p: nat): Hash
    requires p + 2 < |input|
  {
    var h: int, c: int := v, input[p + 2];
    h % 0x100_0000 * 256 + c
  }

  function Slot(h: Hash): (r: int)
    ensures 0 <= r < HSIZE
  {
    var v: int := h;
    (v / 256 - v * 5) % 0x1_0000_0000 % HSIZE
  }

  // ---------------------------------------------------------------- the slot of a position

  /** The hash of the three bytes at ip, by itself. */
  ghost function Bucket(input: seq<Byte>, ip: nat): (r: int)
    requires ip + 2 < |input|
    ensures 0 <= r < 65536
  {
    var a: int, b: int, c: int := input[ip], input[ip + 1], input[ip + 2];
    (a * 256 + b - 5 * (a * 65536 + b * 256 + c)) % 65536
  }

  /** The rolling value before position p: it ends with the two bytes there. */
  ghost predicate Rolls(h: Hash, input: seq<Byte>, p: nat)
    requires p + 1 < |input|
  {
    var v: int, a: int, b: int := h, input[p], input[p + 1];
    v % 65536 == a * 256 + b
  }

  lemma FirstRolls(input: seq<Byte>, beyond: Byte, p: nat)
    requires p + 1 < |input|
    ensures Rolls(First(input, beyond, p), input, p)
  {
  }

  /** Whatever came before, the slot is that of the three bytes alone. */
  lemma NextRolls(h: Hash, input: seq<Byte>, p: nat)
    requires p + 2 < |input| && Rolls(h, input, p)
    ensures Rolls(Next(h, input, p), input, p + 1)
    ensures Slot(Next(h, input, p)) == Bucket(input, p)
  {
    var v: int, a: int, b: int, c: int := h, input[p], input[p + 1], input[p + 2];
    var q := v / 65536 % 256;
    assert v % 0x100_0000 == q * 65536 + a * 256 + b;
    var x := q * 0x100_0000 + a * 65536 + b * 256 + c;
    assert x == Next(h, input, p);
    SlotOf(x, q, a, b, c);
    assert x == (q * 256 + a) * 65536 + (b * 256 + c);
  }

  lemma SlotOf(x: Hash, q: int, a: int, b: int, c: int)
    requires 0 <= a < 256 && 0 <= b < 256 && 0 <= c < 256
    requires x == q * 0x100_0000 + a * 65536 + b * 256 + c
    ensures Slot(x) == (a * 256 + b - 5 * (a * 65536 + b * 256 + c)) % 65536
  {
    var v: int := x;
    assert v / 256 == q * 65536 + a * 256 + b;
    var y := v / 256 - v * 5;
    var z := a * 256 + b - 5 * (a * 65536 + b * 256 + c);
    assert y == z + 65536 * (q - 1280 * q);
    ModTwice(y);
    ModAdds(z, q - 1280 * q);
  }

  lemma ModTwice(y: int)
    ensures y % 0x1_0000_0000 % 65536 == y % 65536
  {
    var k := y / 0x1_0000_0000;
    assert y % 0x1_0000_0000 == y - 65536 * (65536 * k);
    ModAdds(y, -65536 * k);
  }

  lemma ModAdds(z: int, k: int)
    ensures (z + 65536 * k) % 65536 == z % 65536
  {
  }

  // ---------------------------------------------------------------- what a slot says

  /** The slot points at an earlier place, but not the first, at most 8192 back, with the same three bytes. */
  ghost predicate Repeats(input: seq<Byte>, base: Address, slot: Address, ip: nat)
    requires ip + 2 < |input|
  {
    var s: int, b: int := slot, base;
    var ref := s - b;
    && 0 < ref < ip && ip - ref <= 8192
    && input[ref] == input[ip] && input[ref + 1] == input[ip + 1] && input[ref + 2] == input[ip + 2]
  }

  /** The slot points so high that the distance to it wraps around to less than 8192. */
  ghost predicate Wraps(base: Address, slot: Address, ip: nat) {
    var s: int, b: int := slot, base;
    s - b - ip > 0x1_0000_0000_0000_0000 - 8193
  }

  lemma WrapsOnlyLow(base: Address, slot: Address, ip: nat)
    requires Wraps(base, slot, ip)
    ensures base < 8192
  {
  }

  datatype Found = Nothing | Match(ref: nat) | Wild

  /**
    What the slot's content refers to, if it passes the tests on distance and on three bytes. For an
    input at the very bottom of memory the distance can wrap, and the test then reads at the very top.
  */
  function Candidate(input: seq<Byte>, base: Address, slot: Address, ip: nat): (found: Found)
    requires base + |input| < ADDRESS_LIMIT && ip + 2 < |input|
    ensures found.Match? <==> Repeats(input, base, slot, ip)
    ensures found.Match? ==> found.ref == slot - base
    ensures found.Wild? <==> Wraps(base, slot, ip)
  {
    var s: int, b: int := slot, base;
    var off := (b + ip - s - 1) % ADDRESS_LIMIT;
    Distance(b + ip, s);
    if off < MAX_OFF && s > b then
      if s >= b + ip then Wild
      else
        var ref := s - b;
        if input[ref + 2] == input[ip + 2] && input[ref] == input[ip] && input[ref + 1] == input[ip + 1]
        then Match(ref) else Nothing
    else Nothing
  }

  lemma Distance(at: int, s: int)
    requires 0 <= at < ADDRESS_LIMIT && 0 <= s < ADDRESS_LIMIT
    ensures (at - s - 1) % ADDRESS_LIMIT == if s < at then at - s - 1 else at - s - 1 + ADDRESS_LIMIT
  {
  }

  // ---------------------------------------------------------------- one repeated byte

  ghost predicate Uniform(input: seq<Byte>) {
    forall i | 0 <= i < |input| :: input[i] == input[0]
  }

  /**
    Where the loop is in an input of one repeated byte: two literals, then references of 264 bytes,
    each to the byte before it, and one shorter reference at the end.
  */
  ghost predicate Progress(input: seq<Byte>, base: Address, table: seq<Address>, ip: nat, op: nat, lit: nat, refs: nat)
    requires |table| == HSIZE
  {
    && ip <= |input|
    && if refs == 0 then
         && ip <= 2 && op == ip + 1 && lit == ip
         && (0 < ip && ip + 2 < |input| ==> table[Bucket(input, ip)] == base + ip - 1)
       else
         && lit == 0 && op <= 4 + 3 * refs && 264 * (refs - 1) + 2 < ip
         && (ip + 2 < |input| ==> ip == 264 * refs + 2 && table[Bucket(input, ip)] == base + ip - 1)
  }

  lemma StartProgress(input: seq<Byte>, base: Address, table: seq<Address>)
    requires |table| == HSIZE
    ensures Progress(input, base, table, 0, 1, 0, 0)
  {
  }

  lemma ProgressShape(input: seq<Byte>, base: Address, table: seq<Address>, ip: nat, op: nat, lit: nat, refs: nat)
    requires |table| == HSIZE && Progress(input, base, table, ip, op, lit, refs)
    ensures lit <= 2 && (ip < 2 ==> refs == 0 && lit == ip && op == ip + 1) && (ip >= 2 ==> lit == 0 || lit == 2)
    ensures ip + 2 >= |input| ==> op <= 7 + 3 * (|input| / 264)
  {
  }

  lemma UniformBucket(input: seq<Byte>, i: nat, j: nat)
    requires Uniform(input) && i + 2 < |input| && j + 2 < |input|
    ensures Bucket(input, i) == Bucket(input, j)
  {
    assert input[i] == input[j] && input[i + 1] == input[j + 1] && input[i + 2] == input[j + 2];
  }

  /** From the third position on the slot always points at the byte before. */
  lemma ProgressRepeats(input: seq<Byte>, base: Address, table: seq<Address>, ip: nat, op: nat, lit: nat, refs: nat)
    requires |table| == HSIZE && base + |input| < ADDRESS_LIMIT && base >= 8192
    requires Uniform(input) && Progress(input, base, table, ip, op, lit, refs) && ip + 2 < |input|
    ensures Repeats(input, base, table[Bucket(input, ip)], ip) <==> ip >= 2
    ensures ip >= 2 ==> table[Bucket(input, ip)] == base + ip - 1
    ensures op <= 4 + 3 * refs && refs <= |input| / 264
  {
    hide Bucket;
    if ip >= 2 {
      assert input[ip - 1] == input[ip] && input[ip + 1] == input[ip + 2];
    }
  }

  /** A literal step, which is taken only before that. */
  lemma ProgressLiteral(input: seq<Byte>, base: Address, table: seq<Address>, ip: nat, op: nat, lit: nat, refs: nat,
                        after: seq<Address>)
    requires |table| == |after| == HSIZE && base + |input| < ADDRESS_LIMIT
    requires Uniform(input) && Progress(input, base, table, ip, op, lit, refs) && ip < 2 && ip + 2 < |input|
    requires after == table[Bucket(input, ip) := base + ip]
    ensures Progress(input, base, after, ip + 1, op + 1, lit + 1, 0) && refs == 0
  {
    hide Bucket;
    if ip + 3 < |input| {
      UniformBucket(input, ip, ip + 1);
    }
  }

  /** A reference to the byte before, as long as it can be. */
  lemma ProgressReference(input: seq<Byte>, base: Address, table: seq<Address>, ip: nat, op: nat, lit: nat, refs: nat,
                          after: seq<Address>, next: nat, op2: nat)
    requires |table| == |after| == HSIZE && base + |input| < ADDRESS_LIMIT
    requires Uniform(input) && Progress(input, base, table, ip, op, lit, refs) && 2 <= ip && ip + 2 < |input|
    requires ip < next <= |input| && next <= ip + 264
    requires next == ip + 264 || next + 2 >= |input| || input[next - 1] != input[next]
    requires op2 <= op + (if lit == 0 then 3 else 4)
    requires next + 2 < |input| ==> after[Bucket(input, next - 1)] == base + next - 1
    ensures Progress(input, base, after, next, op2, 0, refs + 1)
  {
    hide Bucket;
    if next + 2 < |input| {
      UniformBucket(input, next - 1, next);
      assert input[next - 1] == input[0] && input[next] == input[0];
    }
  }

  /** The size that comes of it, when the last one or two bytes are added. */
  lemma ProgressEnd(input: seq<Byte>, base: Address, table: seq<Address>, ip: nat, op: nat, lit: nat, refs: nat, n: nat)
    requires |table| == HSIZE && input != []
    requires Progress(input, base, table, ip, op, lit, refs) && ip + 2 >= |input|
    requires n == if lit + |input| - ip == 0 then op - 1 else op + |input| - ip
    ensures n <= 9 + 3 * (|input| / 264) && op <= 7 + 3 * (|input| / 264)
  {
  }
}
