/**
  What lzf_compress makes of an input, a place in memory and the contents of the hash table: the stream
  itself, without buffers, run slots or pointers.
*/
module LzfPack {
  import opened Wrappers
  import opened Bytes
  import opened LzfFormat
  import opened LzfTable

  /** How long a match can get with so many bytes to the end; the unrolled comparisons see up to two more. */
  ghost function Reach(rest: int): int {
    if rest >= 266 then 264 else if rest > 20 then rest - 2 else if rest > 18 then 19 else if rest > 4 then rest - 2 else 3
  }

  /** The first place from len on, up to the reach, where the bytes at ref and ip differ. */
  ghost function MatchFrom(input: seq<Byte>, ref: nat, ip: nat, len: nat): (r: nat)
    requires ref < ip && 3 <= len && ip + len <= |input| && len <= Reach(|input| - ip)
    ensures len <= r <= Reach(|input| - ip) && ip + r <= |input|
    decreases |input| - len
  {
    if len < Reach(|input| - ip) && input[ref + len] == input[ip + len] then MatchFrom(input, ref, ip, len + 1) else len
  }

  lemma {:induction false} MatchIs(input: seq<Byte>, ref: nat, ip: nat, len: nat, m: nat)
    requires ref < ip && 3 <= m <= len && ip + len <= |input| && len <= Reach(|input| - ip)
    requires input[ref..ref + len] == input[ip..ip + len]
    requires len == Reach(|input| - ip) || input[ref + len] != input[ip + len]
    ensures MatchFrom(input, ref, ip, m) == len
    decreases len - m
  {
    if m < len {
      assert input[ref..ref + len][m] == input[ip..ip + len][m];
      MatchIs(input, ref, ip, len, m + 1);
    }
  }

  /** The table after a step: the position itself, and behind a match its last two positions. */
  ghost function Entered(input: seq<Byte>, base: Address, table: seq<Address>, ip: nat, next: nat, matched: bool): (r: seq<Address>)
    requires |table| == HSIZE && base + |input| < ADDRESS_LIMIT && ip + 2 < |input| && ip < next && (matched ==> next >= 2)
    ensures |r| == HSIZE
  {
    var here := table[Bucket(input, ip) := base + ip];
    if matched && next + 2 < |input| then here[Bucket(input, next - 2) := base + next - 2][Bucket(input, next - 1) := base + next - 1]
    else here
  }

  /** Literals in runs of at most 32, each with its length less one in front. */
  ghost function Runs(r: seq<Byte>): seq<Byte> {
    if r == [] then [] else if |r| <= 32 then [|r| - 1] + r else [31] + r[..32] + Runs(r[32..])
  }

  /**
    From position ip on, with the finished tokens and the literals of the open run: a reference where the
    table points at a repetition, a literal otherwise; None when the output has no room or the look into
    the table goes astray.
  */
  ghost function Pack(input: seq<Byte>, base: Address, table: seq<Address>, ip: nat, tokens: seq<Byte>, run: seq<Byte>, limit: nat)
    : Option<seq<Byte>>
    requires |table| == HSIZE && base + |input| < ADDRESS_LIMIT && ip <= |input| && |run| < 32
    decreases |input| - ip
  {
    var op := |tokens| + 1 + |run|;
    if ip + 2 >= |input| then
      if op + 3 > limit then None else Some(tokens + Runs(run + input[ip..]))
    else
      var slot := table[Bucket(input, ip)];
      if Wraps(base, slot, ip) then None
      else if Repeats(input, base, slot, ip) then
        if op - (if run == [] then 1 else 0) + 4 >= limit then None
        else
          var ref: nat := slot - base;
          var next := ip + MatchFrom(input, ref, ip, 3);
          Pack(input, base, Entered(input, base, table, ip, next, true), next,
               tokens + Runs(run) + ReferenceBytes(ip - ref - 1, next - ip - 2), [], limit)
      else if op >= limit then None
      else
        var more := run + [input[ip]];
        var after := Entered(input, base, table, ip, ip + 1, false);
        if |more| == 32 then Pack(input, base, after, ip + 1, tokens + Runs(more), [], limit)
        else Pack(input, base, after, ip + 1, tokens, more, limit)
  }

  /** The whole input: nothing comes of an empty one or of an empty buffer. */
  ghost function Packed(input: seq<Byte>, base: Address, table: seq<Address>, limit: nat): Option<seq<Byte>>
    requires |table| == HSIZE && base + |input| < ADDRESS_LIMIT
  {
    if input == [] || limit == 0 then None else Pack(input, base, table, 0, [], [], limit)
  }

  /** One turn, a literal. */
  lemma PackLiteral(input: seq<Byte>, base: Address, table: seq<Address>, ip: nat, tokens: seq<Byte>, run: seq<Byte>, limit: nat)
    requires |table| == HSIZE && base + |input| < ADDRESS_LIMIT && ip + 2 < |input| && |run| < 32
    requires !Wraps(base, table[Bucket(input, ip)], ip) && !Repeats(input, base, table[Bucket(input, ip)], ip)
    ensures var more, after := run + [input[ip]], Entered(input, base, table, ip, ip + 1, false);
            var op := |tokens| + 1 + |run|;
            && (op >= limit ==> Pack(input, base, table, ip, tokens, run, limit) == None)
            && (op < limit && |more| < 32 ==>
                 Pack(input, base, table, ip, tokens, run, limit) == Pack(input, base, after, ip + 1, tokens, more, limit))
            && (op < limit && |more| == 32 ==>
                 Pack(input, base, table, ip, tokens, run, limit) == Pack(input, base, after, ip + 1, tokens + Runs(more), [], limit))
  {
    hide Bucket, Wraps, Repeats, Entered, Runs;
  }

  /** One turn, a reference. */
  lemma PackReference(input: seq<Byte>, base: Address, table: seq<Address>, ip: nat, tokens: seq<Byte>, run: seq<Byte>,
                      limit: nat, len: nat)
    requires |table| == HSIZE && base + |input| < ADDRESS_LIMIT && ip + 2 < |input| && |run| < 32
    requires !Wraps(base, table[Bucket(input, ip)], ip) && Repeats(input, base, table[Bucket(input, ip)], ip)
    requires var ref: nat := table[Bucket(input, ip)] - base;
             len == MatchFrom(input, ref, ip, 3)
    ensures var ref: nat, after := table[Bucket(input, ip)] - base, Entered(input, base, table, ip, ip + len, true);
            var op := |tokens| + 1 + |run|;
            && (op - (if run == [] then 1 else 0) + 4 >= limit ==> Pack(input, base, table, ip, tokens, run, limit) == None)
            && (op - (if run == [] then 1 else 0) + 4 < limit ==>
                 Pack(input, base, table, ip, tokens, run, limit)
                 == Pack(input, base, after, ip + len, tokens + Runs(run) + ReferenceBytes(ip - ref - 1, len - 2), [], limit))
  {
    hide Bucket, Entered, Runs, ReferenceBytes, Reach;
  }

  lemma PackWild(input: seq<Byte>, base: Address, table: seq<Address>, ip: nat, tokens: seq<Byte>, run: seq<Byte>, limit: nat)
    requires |table| == HSIZE && base + |input| < ADDRESS_LIMIT && ip + 2 < |input| && |run| < 32
    requires Wraps(base, table[Bucket(input, ip)], ip)
    ensures Pack(input, base, table, ip, tokens, run, limit) == None
  {
    hide Bucket, Repeats, Entered, Runs;
  }

  lemma PackEnd(input: seq<Byte>, base: Address, table: seq<Address>, ip: nat, tokens: seq<Byte>, run: seq<Byte>, limit: nat)
    requires |table| == HSIZE && base + |input| < ADDRESS_LIMIT && ip <= |input| <= ip + 2 && |run| < 32
    ensures Pack(input, base, table, ip, tokens, run, limit)
         == if |tokens| + |run| + 4 > limit then None else Some(tokens + Runs(run + input[ip..]))
  {
    hide Runs;
  }
}
