/**
  lzf_compress and lzf_decompress of src/lzf, in the VERY_FAST configuration with a 16-bit hash,
  pointers in the hash table, no table initialisation and input checks on.
*/
module Lzf {
  import opened Wrappers
  import opened Bytes
  import opened LzfFormat
  import opened LzfTable
  import opened LzfPack

  // ---------------------------------------------------------------- decompression

  /** A literal run: count bytes from the stream to the output. */
  method CopyLiterals(s: seq<Byte>, ip: nat, out: array<Byte>, op: nat, count: nat)
    requires ip + count <= |s| && op + count <= out.Length
    modifies out
    ensures out[..op + count] == old(out[..op]) + s[ip..ip + count]
  {
    for i := 0 to count
      invariant out[..op] == old(out[..op])
      invariant out[op..op + i] == s[ip..ip + i]
    {
      ghost var done := out[op..op + i];
      out[op + i] := s[ip + i];
      assert out[op..op + (i + 1)] == done + [s[ip + i]];
      assert s[ip..ip + (i + 1)] == s[ip..ip + i] + [s[ip + i]];
    }
  }

  /** A back reference: one block when source and copy are apart, byte by byte otherwise. */
  method CopyReference(out: array<Byte>, op: nat, dist: nat, count: nat)
    requires 1 <= dist <= op && op + count <= out.Length
    modifies out
    ensures out[..op + count] == CopyBack(old(out[..op]), dist, count)
  {
    ghost var before := out[..op];
    if count > 11 && dist >= count {
      var block := out[op - dist..op - dist + count];
      forall i | 0 <= i < count {
        out[op + i] := block[i];
      }
    } else {
      for i := 0 to count
        invariant out[..op] == before
        invariant forall k | op <= k < op + i :: out[k] == out[k - dist]
      {
        out[op + i] := out[op + i - dist];
      }
    }
    CopyBackUnique(before, dist, count, out[..op + count]);
  }

  /** One turn of the decoder on the stream from position ip. */
  lemma DecodeFrom(s: seq<Byte>, ip: nat, out: seq<Byte>, limit: nat, token: Token)
    requires ip < |s| && token == NextToken(s[ip..])
    ensures Decode(s[ip..], out, limit)
         == match token
            case Literals(size, count) =>
              if |out| + count > limit then TooBig
              else if ip + size > |s| then Invalid
              else Decode(s[ip + size..], out + s[ip + 1..ip + size], limit)
            case Reference(size, dist, count) =>
              if |out| + count > limit then TooBig
              else if dist > |out| then Invalid
              else Decode(s[ip + size..], CopyBack(out, dist, count), limit)
            case CutShort => Invalid
  {
    hide CopyBack;
    var rest := s[ip..];
    match token
    case Literals(size, count) =>
      if ip + size <= |s| {
        assert rest[1..size] == s[ip + 1..ip + size];
        assert rest[size..] == s[ip + size..];
      }
    case Reference(size, dist, count) =>
      assert rest[size..] == s[ip + size..];
    case CutShort =>
  }

  lemma DecodeNothing(out: seq<Byte>, limit: nat)
    ensures Decode([], out, limit) == Done(out)
  {
  }

  /** lzf_decompress: exactly the output of the stream, or zero when it does not decode. */
  method Decompress(s: seq<Byte>, out: array<Byte>) returns (n: nat, status: Decoded)
    modifies out
    ensures status == Decode(s, [], out.Length)
    ensures status.Done? ==> n == |status.output| <= out.Length && out[..n] == status.output
    ensures !status.Done? ==> n == 0
  {
    hide Decode, CopyBack, NextToken;
    var ip, op := 0, 0;
    assert s[0..] == s && out[..0] == [];
    while ip < |s|
      invariant 0 <= ip <= |s| && 0 <= op <= out.Length
      invariant Decode(s[ip..], out[..op], out.Length) == Decode(s, [], out.Length)
    {
      var token := ReadToken(s, ip);
      DecodeFrom(s, ip, out[..op], out.Length, token);
      match token
      case Literals(size, count) =>
        if op + count > out.Length {
          return 0, TooBig;
        }
        if ip + size > |s| {
          return 0, Invalid;
        }
        CopyLiterals(s, ip + 1, out, op, count);
        ip, op := ip + size, op + count;
      case Reference(size, dist, count) =>
        if op + count > out.Length {
          return 0, TooBig;
        }
        if dist > op {
          return 0, Invalid;
        }
        CopyReference(out, op, dist, count);
        ip, op := ip + size, op + count;
      case CutShort =>
        return 0, Invalid;
    }
    assert s[ip..] == [];
    DecodeNothing(out[..op], out.Length);
    n, status := op, Done(out[..op]);
  }

  /** The control byte at ip and the bytes that belong to it. */
  method ReadToken(s: seq<Byte>, ip: nat) returns (token: Token)
    requires ip < |s|
    ensures token == NextToken(s[ip..])
    ensures token.Reference? ==> ip + token.size <= |s| && token.dist >= 1
    ensures token.Literals? ==> token.size == token.count + 1 && token.count >= 1
    ensures !token.CutShort? ==> token.size >= 2
  {
    var ctrl: int := s[ip];
    if ctrl < 32 {
      return Literals(ctrl + 2, ctrl + 1);
    }
    var len := ctrl / 32;
    var back := ctrl % 32 * 256 + 1;
    var at := ip + 1;
    if at >= |s| {
      return CutShort;
    }
    if len == 7 {
      len := len + s[at];
      at := at + 1;
      if at >= |s| {
        return CutShort;
      }
    }
    back := back + s[at];
    token := Reference(at + 1 - ip, back, len + 2);
  }

  // ---------------------------------------------------------------- compression: the hash table

  /** After a match only its last two positions enter the table. */
  method Reseed(input: seq<Byte>, beyond: Byte, htab: array<Address>, base: Address, ip: nat) returns (hval: Hash)
    requires htab.Length == HSIZE && base + |input| < ADDRESS_LIMIT
    requires 2 <= ip && ip + 2 < |input|
    modifies htab
    ensures Rolls(hval, input, ip)
    ensures htab[..] == old(htab[..])[Bucket(input, ip - 2) := base + (ip - 2)][Bucket(input, ip - 1) := base + (ip - 1)]
  {
    hide First, Next, Slot, Bucket, Rolls;
    hval := First(input, beyond, ip - 2);
    FirstRolls(input, beyond, ip - 2);
    NextRolls(hval, input, ip - 2);
    hval := Next(hval, input, ip - 2);
    htab[Slot(hval)] := base + (ip - 2);
    NextRolls(hval, input, ip - 1);
    hval := Next(hval, input, ip - 1);
    htab[Slot(hval)] := base + (ip - 1);
  }

  /** The n bytes at ref and at ip agree. */
  ghost predicate Agree(input: seq<Byte>, ref: nat, ip: nat, n: nat)
    requires ref < ip && ip + n <= |input|
  {
    input[ref..ref + n] == input[ip..ip + n]
  }

  lemma AgreeStart(input: seq<Byte>, ref: nat, ip: nat)
    requires ref < ip && ip + 3 <= |input| && input[ref..ref + 3] == input[ip..ip + 3]
    ensures Agree(input, ref, ip, 2) && input[ref + 2] == input[ip + 2]
  {
    assert input[ref..ref + 3][2] == input[ip..ip + 3][2];
    assert input[ref..ref + 2] == input[ref..ref + 3][..2];
    assert input[ip..ip + 2] == input[ip..ip + 3][..2];
  }

  lemma AgreeMore(input: seq<Byte>, ref: nat, ip: nat, n: nat)
    requires ref < ip && ip + n < |input|
    requires Agree(input, ref, ip, n) && input[ref + n] == input[ip + n]
    ensures Agree(input, ref, ip, n + 1)
  {
    assert input[ref..ref + (n + 1)] == input[ref..ref + n] + [input[ref + n]];
    assert input[ip..ip + (n + 1)] == input[ip..ip + n] + [input[ip + n]];
  }

  /** The length of the match: sixteen unrolled comparisons if there is room, then one at a time. */
  method MatchLength(input: seq<Byte>, ref: nat, ip: nat) returns (len: nat)
    requires ref < ip && ip + 3 <= |input|
    requires input[ref..ref + 3] == input[ip..ip + 3]
    ensures 3 <= len <= MAX_REF && ip + len <= |input|
    ensures Agree(input, ref, ip, len)
    ensures len <= Reach(|input| - ip) && (len == Reach(|input| - ip) || input[ref + len] != input[ip + len])
  {
    hide Agree;
    var maxlen := |input| - ip - 2;
    maxlen := if maxlen > MAX_REF then MAX_REF else maxlen;
    len := 2;
    AgreeStart(input, ref, ip);
    if maxlen > 16 {
      var i := 0;
      while i < 16
        invariant 0 <= i <= 16 && len == 2 + i
        invariant Agree(input, ref, ip, len) && input[ref + len] == input[ip + len]
      {
        AgreeMore(input, ref, ip, len);
        len := len + 1;
        i := i + 1;
        if input[ref + len] != input[ip + len] {
          return;
        }
      }
    }
    AgreeMore(input, ref, ip, len);
    len := len + 1;
    while len < maxlen && input[ref + len] == input[ip + len]
      invariant 3 <= len && ip + len <= |input| && len <= Reach(|input| - ip)
      invariant Agree(input, ref, ip, len)
    {
      AgreeMore(input, ref, ip, len);
      len := len + 1;
    }
  }

  // ---------------------------------------------------------------- compression: the output

  /**
    The finished tokens stand for the input up to the open run; the open run holds the last
    lit input bytes behind a slot that is still to be filled with its length.
  */
  ghost predicate Pending(input: seq<Byte>, o: seq<Byte>, ip: nat, op: nat, lit: nat) {
    && lit < MAX_LIT && lit <= ip <= |input|
    && lit + 1 <= op <= |o| + 1 && (lit > 0 ==> op <= |o|)
    && Decode(o[..op - lit - 1], [], |input|) == Done(input[..ip - lit])
    && (lit > 0 ==> o[op - lit..op] == input[ip - lit..ip])
  }

  /** Every byte spent beyond the input is paid for by a full run of 32 literals. */
  ghost predicate Paid(ip: int, op: int, lit: int, full: nat) {
    32 * full <= ip - lit && op - lit - 1 <= ip - lit + full
  }

  lemma StartRun(input: seq<Byte>, o: seq<Byte>)
    requires o != []
    ensures Pending(input, o, 0, 1, 0) && Paid(0, 1, 0, 0)
  {
    assert o[..0] == [] && input[..0] == [];
  }

  lemma Bounds(input: seq<Byte>, o: seq<Byte>, ip: nat, op: nat, lit: nat, full: nat)
    requires Pending(input, o, ip, op, lit) && Paid(ip, op, lit, full)
    ensures lit <= ip && lit < op && lit < MAX_LIT
    ensures op <= ip + |input| / 32 + 1
  {
  }

  /** Filling in the length closes a run of lit bytes. */
  lemma CloseRun(input: seq<Byte>, o: seq<Byte>, ip: nat, op: nat, lit: nat)
    requires 1 <= lit <= MAX_LIT && lit <= ip <= |input| && lit + 1 <= op <= |o|
    requires o[op - lit - 1] == lit - 1
    requires Decode(o[..op - lit - 1], [], |input|) == Done(input[..ip - lit])
    requires o[op - lit..op] == input[ip - lit..ip]
    ensures Decode(o[..op], [], |input|) == Done(input[..ip])
  {
    hide Decode;
    RunBytes(o, op, lit);
    AppendRun(o[..op - lit - 1], o[op - lit..op], input[..ip - lit], |input|);
    assert input[..ip] == input[..ip - lit] + o[op - lit..op];
  }

  lemma RunBytes(o: seq<Byte>, op: nat, lit: nat)
    requires 1 <= lit && lit + 1 <= op <= |o| && o[op - lit - 1] == lit - 1
    ensures o[..op] == o[..op - lit - 1] + ([|o[op - lit..op]| - 1] + o[op - lit..op])
  {
  }

  lemma AppendRun(head: seq<Byte>, run: seq<Byte>, output: seq<Byte>, limit: nat)
    requires 1 <= |run| <= MAX_LIT && |output| + |run| <= limit
    requires Decode(head, [], limit) == Done(output)
    ensures Decode(head + ([|run| - 1] + run), [], limit) == Done(output + run)
  {
    AppendLiterals(head, run, limit);
  }

  /** The byte is added to the run, and a run of 32 is closed with its length, less one, in front. */
  ghost predicate LiteralWritten(input: seq<Byte>, o: seq<Byte>, r: seq<Byte>, ip: nat, op0: nat, lit0: nat, op: nat, lit: nat) {
    && ip < |input| && lit0 < op0 < |o|
    && if lit0 < 31 then op == op0 + 1 && lit == lit0 + 1 && r == o[op0 := input[ip]]
       else op == op0 + 2 && lit == 0 && lit0 == 31 && r == o[op0 := input[ip]][op0 - 32 := 31]
  }

  /** What stands before a reference: the open run closed, or its slot taken back. */
  ghost function Closed(o: seq<Byte>, op: nat, lit: nat): seq<Byte>
    requires lit < op && lit <= 32 && (if lit == 0 then op - 1 else op) <= |o|
  {
    if lit == 0 then o[..op - 1] else o[op - lit - 1 := lit - 1][..op]
  }

  /** A reference to ref for the longest match of at most 264 bytes that the search sees. */
  ghost predicate ReferenceWritten(input: seq<Byte>, o: seq<Byte>, r: seq<Byte>, ip: nat, ref: int, op0: nat, lit0: nat,
                                   next: nat, op: nat, lit: nat) {
    var len := next - ip;
    && 3 <= len <= 264 && next <= |input| && 0 < ref < ip && ip - ref <= 8192 && Agree(input, ref, ip, len)
    && len <= Reach(|input| - ip) && (len == Reach(|input| - ip) || input[ref + len] != input[next])
    && lit0 < op0 && lit0 < 32 && (if lit0 == 0 then op0 - 1 else op0) <= |o|
    && lit == 0 && 0 < op <= |r| && r[..op - 1] == Closed(o, op0, lit0) + ReferenceBytes(ip - ref - 1, len - 2)
  }

  /** One literal byte; a run that reaches 32 bytes is closed and a new one opened. */
  method PutLiteral(input: seq<Byte>, out: array<Byte>, ip: nat, op0: nat, lit0: nat, ghost full0: nat)
    returns (op: nat, lit: nat, ghost full: nat)
    requires ip < |input| && op0 < out.Length
    requires Pending(input, out[..], ip, op0, lit0) && Paid(ip, op0, lit0, full0)
    modifies out
    ensures Pending(input, out[..], ip + 1, op, lit) && Paid(ip + 1, op, lit, full)
    ensures lit0 < MAX_LIT - 1 ==> op == op0 + 1 && lit == lit0 + 1
    ensures lit0 == MAX_LIT - 1 ==> op == op0 + 2 && lit == 0
    ensures LiteralWritten(input, old(out[..]), out[..], ip, op0, lit0, op, lit)
  {
    hide Decode;
    op, lit, full := op0, lit0, full0;
    ghost var head := out[..op - lit - 1];
    ghost var run := input[ip - lit..ip];
    assert run == out[op - lit..op];
    lit := lit + 1;
    out[op] := input[ip];
    op := op + 1;
    assert out[..][..op - lit - 1] == head;
    assert out[..][op - lit..op] == run + [input[ip]] == input[ip + 1 - lit..ip + 1];
    if lit == MAX_LIT {
      out[op - lit - 1] := lit - 1;
      assert out[..][..op - lit - 1] == head;
      assert out[..][op - lit..op] == input[ip + 1 - lit..ip + 1];
      CloseRun(input, out[..], ip + 1, op, lit);
      lit := 0;
      op := op + 1;
      full := full + 1;
    }
  }

  /** A match of len + 2 bytes: close the run, or take its slot back, and write the reference. */
  method PutReference(input: seq<Byte>, out: array<Byte>, ip: nat, op0: nat, lit: nat, ghost full: nat,
                      off: nat, len: nat)
    returns (op: nat)
    requires Pending(input, out[..], ip, op0, lit) && Paid(ip, op0, lit, full)
    requires 1 <= len <= MAX_REF - 2 && off < MAX_OFF && off + 1 <= ip && ip + len + 2 <= |input|
    requires Agree(input, ip - off - 1, ip, len + 2)
    requires op0 - (if lit == 0 then 1 else 0) + 4 < out.Length
    modifies out
    ensures Pending(input, out[..], ip + len + 2, op, 0) && Paid(ip + len + 2, op, 0, full)
    ensures 0 < op <= op0 - (if lit == 0 then 1 else 0) + 4 && op <= out.Length
    ensures lit < op0 && (if lit == 0 then op0 - 1 else op0) <= out.Length
    ensures out[..op - 1] == Closed(old(out[..]), op0, lit) + ReferenceBytes(off, len)
  {
    hide Decode, CopyBack, ReferenceBytes;
    op := op0;
    ghost var head := out[..op - lit - 1];
    ghost var run := out[op - lit..op];
    out[op - lit - 1] := (lit - 1) % 256;
    assert out[..][..op - lit - 1] == head;
    if lit == 0 {
      op := op - 1;
    } else {
      assert out[..][op - lit..op] == run;
      CloseRun(input, out[..], ip, op, lit);
    }
    ghost var closed := out[..op];
    assert out[..][..op] == closed && closed == Closed(old(out[..]), op0, lit);
    AppendReference(closed, off, len, |input|);
    MatchIsCopy(input, ip, off + 1, len + 2);
    op := WriteReference(out, op, off, len);
    op := op + 1;
    assert out[..][..op - 1] == closed + ReferenceBytes(off, len);
  }

  method WriteReference(out: array<Byte>, op0: nat, off: nat, len: nat) returns (op: nat)
    requires op0 + 3 <= out.Length
    requires off < MAX_OFF && 1 <= len <= MAX_REF - 2
    modifies out
    ensures op == op0 + |ReferenceBytes(off, len)| <= op0 + 3 && |ReferenceBytes(off, len)| <= len + 1
    ensures out[..op] == old(out[..op0]) + ReferenceBytes(off, len)
  {
    op := op0;
    if len < 7 {
      out[op] := off / 256 + len * 32;
      op := op + 1;
    } else {
      out[op] := off / 256 + 7 * 32;
      op := op + 1;
      out[op] := len - 7;
      op := op + 1;
    }
    out[op] := off % 256;
    op := op + 1;
  }

  // ---------------------------------------------------------------- compression

  /** The match branch of the main loop; ok is false when the output has no room. */
  method TakeMatch(input: seq<Byte>, out: array<Byte>, ip: nat, op0: nat, lit: nat, ghost full: nat, ref: nat)
    returns (ok: bool, next: nat, op: nat)
    requires ip + 2 < |input| && 0 < ref < ip && ip - ref - 1 < MAX_OFF
    requires input[ref..ref + 3] == input[ip..ip + 3]
    requires Pending(input, out[..], ip, op0, lit) && Paid(ip, op0, lit, full)
    modifies out
    ensures ok ==> Pending(input, out[..], next, op, 0) && Paid(next, op, 0, full)
    ensures ok <==> op0 - (if lit == 0 then 1 else 0) + 4 < out.Length
    ensures ok ==> ReferenceWritten(input, old(out[..]), out[..], ip, ref, op0, lit, next, op, 0)
    ensures ok ==> op <= op0 + (if lit == 0 then 3 else 4)
  {
    hide Decode, Pending, Paid, Agree, ReferenceBytes, Closed;
    Bounds(input, out[..], ip, op0, lit, full);
    if op0 - (if lit == 0 then 1 else 0) + 3 + 1 >= out.Length {
      return false, ip, op0;
    }
    var len := MatchLength(input, ref, ip);
    len := len - 2;
    op := PutReference(input, out, ip, op0, lit, full, ip - ref - 1, len);
    ok, next := true, ip + len + 2;
    assert out[..][..op - 1] == out[..op - 1];
  }

  /**
    One turn of the main loop: a reference exactly when the slot of the three bytes points at a repetition,
    a literal otherwise; the output has no room exactly when ok is false.
  */
  method Step(input: seq<Byte>, beyond: Byte, out: array<Byte>, htab: array<Address>, base: Address, h: Hash,
              ip: nat, op0: nat, lit0: nat, ghost full0: nat)
    returns (ok: bool, wild: bool, hval: Hash, next: nat, op: nat, lit: nat, ghost full: nat)
    requires htab.Length == HSIZE && ip + 2 < |input| && Rolls(h, input, ip)
    requires base + |input| < ADDRESS_LIMIT
    requires Pending(input, out[..], ip, op0, lit0) && Paid(ip, op0, lit0, full0)
    modifies out, htab
    ensures ok ==> ip < next <= |input| && (next + 2 < |input| ==> Rolls(hval, input, next))
    ensures ok ==> Pending(input, out[..], next, op, lit) && Paid(next, op, lit, full)
    ensures wild <==> Wraps(base, old(htab[Bucket(input, ip)]), ip)
    ensures wild ==> !ok
    ensures !wild ==>
              if Repeats(input, base, old(htab[Bucket(input, ip)]), ip) then
                && (ok <==> op0 - (if lit0 == 0 then 1 else 0) + 4 < out.Length)
                && (ok ==> ReferenceWritten(input, old(out[..]), out[..], ip, old(htab[Bucket(input, ip)]) - base, op0, lit0, next, op, lit))
                && (ok ==> op <= op0 + (if lit0 == 0 then 3 else 4))
                && (ok ==> htab[..] == Entered(input, base, old(htab[..]), ip, next, true))
              else
                && (ok <==> op0 < out.Length)
                && (ok ==> next == ip + 1 && LiteralWritten(input, old(out[..]), out[..], ip, op0, lit0, op, lit))
                && (ok ==> htab[..] == Entered(input, base, old(htab[..]), ip, next, false))
  {
    hide Decode, Candidate, Pending, Paid, First, Next, Slot, Bucket, Rolls, Repeats, Wraps, Agree, Closed, ReferenceBytes;
    full := full0;
    NextRolls(h, input, ip);
    hval := Next(h, input, ip);
    var slot := Slot(hval);
    var found := Candidate(input, base, htab[slot], ip);
    htab[slot] := base + ip;
    wild := found.Wild?;
    if wild {
      ok, next, op, lit := false, ip, op0, lit0;
    } else if found.Match? {
      RepeatsAt(input, base, old(htab[slot]), ip);
      ok, next, op := TakeMatch(input, out, ip, op0, lit0, full, found.ref);
      lit := 0;
      if ok && next < |input| - 2 {
        hval := Reseed(input, beyond, htab, base, next);
      }
    } else if op0 >= out.Length {
      ok, next, op, lit := false, ip, op0, lit0;
    } else {
      op, lit, full := PutLiteral(input, out, ip, op0, lit0, full);
      ok, next := true, ip + 1;
    }
  }

  lemma RepeatsAt(input: seq<Byte>, base: Address, slot: Address, ip: nat)
    requires ip + 2 < |input| && Repeats(input, base, slot, ip)
    ensures var ref := slot - base;
            0 < ref < ip && ip - ref - 1 < MAX_OFF && input[ref..ref + 3] == input[ip..ip + 3]
  {
  }

  /** The first look into the table already goes astray. */
  ghost predicate StartsWild(input: seq<Byte>, table: seq<Address>, base: Address)
    requires |table| == HSIZE
  {
    |input| >= 3 && Wraps(base, table[Bucket(input, 0)], 0)
  }

  /**
    lzf_compress, for any contents of the hash table and of the byte beyond the input. A result n > 0
    fits the output buffer and the n bytes stand for exactly the input; the output is never longer
    than in_len + in_len/32 + 1, and room for three bytes more than that is enough to succeed. A wild
    read ends the run; it takes an input in the lowest 8 KB of memory.
  */
  method Compress(input: seq<Byte>, beyond: Byte, out: array<Byte>, htab: array<Address>, base: Address)
    returns (n: nat, wild: bool)
    requires htab.Length == HSIZE && base + |input| < ADDRESS_LIMIT
    modifies out, htab
    ensures n <= out.Length && n <= |input| + |input| / 32 + 1
    ensures n > 0 ==> Decode(out[..n], [], |input|) == Done(input)
    ensures input != [] && out.Length >= |input| + |input| / 32 + 4 ==> n > 0 || wild
    ensures wild ==> n == 0 && base < 8192 && |input| >= 3
    ensures out.Length > 0 && StartsWild(input, old(htab[..]), base) ==> wild
    ensures Packed(input, base, old(htab[..]), out.Length) == if n > 0 then Some(out[..n]) else None
    ensures input != [] && Uniform(input) && base >= 8192 && out.Length >= 10 + 3 * (|input| / 264) ==>
              0 < n <= 9 + 3 * (|input| / 264)
  {
    hide Decode, First, Next, Slot, Candidate, Pending, Paid, Bucket, Rolls, Repeats, Wraps, Uniform, Progress;
    hide Pack, Packed, PackAt, Runs, Stage, StartsWild;
    n, wild := 0, false;
    StartAstray(input, htab[..], base);
    if |input| == 0 || out.Length == 0 {
      PackedNone(input, base, htab[..], out.Length);
      return;
    }
    var ip: nat, op: nat, lit: nat := 0, 1, 0;
    ghost var full: nat, refs: nat := 0, 0;
    StartRun(input, out[..]);
    StartProgress(input, base, htab[..]);
    StartPack(input, base, htab[..], out[..]);
    ghost var goal := Packed(input, base, htab[..], out.Length);
    var hval := First(input, beyond, ip);
    if |input| > 1 {
      FirstRolls(input, beyond, ip);
    }
    while ip < |input| - 2
      invariant 0 <= ip <= |input| && !wild && (ip + 2 < |input| ==> Rolls(hval, input, ip))
      invariant ip == 0 ==> htab[..] == old(htab[..])
      invariant StartsWild(input, old(htab[..]), base) ==> ip == 0
      invariant Pending(input, out[..], ip, op, lit) && Paid(ip, op, lit, full)
      invariant Uniform(input) && base >= 8192 ==> Progress(input, base, htab[..], ip, op, lit, refs)
      invariant Stage(input, out[..], ip, op, lit) && PackAt(input, base, htab[..], out[..], ip, op, lit) == goal
    {
      Bounds(input, out[..], ip, op, lit, full);
      StartAstray(input, htab[..], base);
      assert htab[..][Bucket(input, ip)] == htab[Bucket(input, ip)];
      var ok;
      ok, wild, hval, ip, op, lit, full, refs := Turn(input, beyond, out, htab, base, hval, ip, op, lit, full, refs);
      if !ok {
        return;
      }
    }
    n := Conclude(input, out, base, htab[..], ip, op, lit, full, refs);
  }

  lemma PackedNone(input: seq<Byte>, base: Address, table: seq<Address>, limit: nat)
    requires |table| == HSIZE && base + |input| < ADDRESS_LIMIT && (input == [] || limit == 0)
    ensures Packed(input, base, table, limit) == None
  {
  }

  lemma StartPack(input: seq<Byte>, base: Address, table: seq<Address>, o: seq<Byte>)
    requires |table| == HSIZE && base + |input| < ADDRESS_LIMIT && input != [] && o != []
    ensures Stage(input, o, 0, 1, 0) && PackAt(input, base, table, o, 0, 1, 0) == Packed(input, base, table, |o|)
  {
    hide Pack;
    assert o[..0] == [] && input[0..0] == [];
  }

  lemma StartAstray(input: seq<Byte>, table: seq<Address>, base: Address)
    requires |table| == HSIZE
    ensures StartsWild(input, table, base) <==> |input| >= 3 && Wraps(base, table[Bucket(input, 0)], 0)
  {
  }

  /** The end of lzf_compress, behind the main loop. */
  method Conclude(input: seq<Byte>, out: array<Byte>, ghost base: Address, ghost table: seq<Address>,
                  ip: nat, op: nat, lit: nat, ghost full: nat, ghost refs: nat)
    returns (n: nat)
    requires |table| == HSIZE && base + |input| < ADDRESS_LIMIT && 0 < |input| && |input| - 2 <= ip <= |input|
    requires Pending(input, out[..], ip, op, lit) && Paid(ip, op, lit, full)
    requires Uniform(input) && base >= 8192 ==> Progress(input, base, table, ip, op, lit, refs)
    modifies out
    ensures n <= out.Length && n <= |input| + |input| / 32 + 1
    ensures n > 0 ==> Decode(out[..n], [], |input|) == Done(input)
    ensures out.Length >= |input| + |input| / 32 + 4 ==> n > 0
    ensures Stage(input, old(out[..]), ip, op, lit)
    ensures PackAt(input, base, table, old(out[..]), ip, op, lit) == if n > 0 then Some(out[..n]) else None
    ensures Uniform(input) && base >= 8192 && out.Length >= 10 + 3 * (|input| / 264) ==> 0 < n <= 9 + 3 * (|input| / 264)
  {
    hide Decode, Pending, Paid, Uniform, Progress, Pack, Runs;
    n := 0;
    Bounds(input, out[..], ip, op, lit, full);
    StageOf(input, out[..], ip, op, lit);
    PackEnd(input, base, table, ip, out[..][..op - lit - 1], input[ip - lit..ip], out.Length);
    assert input[ip - lit..ip] + input[ip..] == input[ip - lit..];
    assert out[..][..op - lit - 1] == out[..op - lit - 1];
    if Uniform(input) && base >= 8192 {
      ProgressShape(input, base, table, ip, op, lit, refs);
    }
    if op + 3 > out.Length {
      return;
    }
    n := Finish(input, out, ip, op, lit, full);
    if Uniform(input) && base >= 8192 {
      ProgressEnd(input, base, table, ip, op, lit, refs, n);
    }
  }

  /** A turn of the loop, with its place in an input of one repeated byte. */
  method Turn(input: seq<Byte>, beyond: Byte, out: array<Byte>, htab: array<Address>, base: Address, h: Hash,
              ip: nat, op0: nat, lit0: nat, ghost full0: nat, ghost refs0: nat)
    returns (ok: bool, wild: bool, hval: Hash, next: nat, op: nat, lit: nat, ghost full: nat, ghost refs: nat)
    requires htab.Length == HSIZE && ip + 2 < |input| && Rolls(h, input, ip)
    requires base + |input| < ADDRESS_LIMIT
    requires Pending(input, out[..], ip, op0, lit0) && Paid(ip, op0, lit0, full0)
    requires Uniform(input) && base >= 8192 ==> Progress(input, base, htab[..], ip, op0, lit0, refs0)
    modifies out, htab
    ensures ok ==> ip < next <= |input| && (next + 2 < |input| ==> Rolls(hval, input, next))
    ensures ok ==> Pending(input, out[..], next, op, lit) && Paid(next, op, lit, full)
    ensures wild <==> Wraps(base, old(htab[Bucket(input, ip)]), ip)
    ensures wild ==> !ok && base < 8192
    ensures !ok && !wild ==> op0 + 4 >= out.Length
    ensures Stage(input, old(out[..]), ip, op0, lit0) && (ok ==> Stage(input, out[..], next, op, lit))
    ensures PackAt(input, base, old(htab[..]), old(out[..]), ip, op0, lit0)
         == if ok then PackAt(input, base, htab[..], out[..], next, op, lit) else None
    ensures Uniform(input) && base >= 8192 && ok ==> Progress(input, base, htab[..], next, op, lit, refs)
    ensures Uniform(input) && base >= 8192 && out.Length >= 10 + 3 * (|input| / 264) ==> ok
  {
    hide Decode, Pending, Paid, Bucket, Rolls, Repeats, Wraps, Uniform, Progress, Agree, Closed, ReferenceBytes, Entered, PackAt;
    Bounds(input, out[..], ip, op0, lit0, full0);
    ghost var table, bytes := htab[..], out[..];
    if Uniform(input) && base >= 8192 {
      ProgressRepeats(input, base, table, ip, op0, lit0, refs0);
    }
    ok, wild, hval, next, op, lit, full := Step(input, beyond, out, htab, base, h, ip, op0, lit0, full0);
    refs := refs0;
    StageOf(input, bytes, ip, op0, lit0);
    if wild {
      TurnWild(input, base, table, bytes, ip, op0, lit0);
    } else if Repeats(input, base, table[Bucket(input, ip)], ip) {
      TurnReference(input, base, table, bytes, htab[..], out[..], ip, op0, lit0, ok, next, op, lit);
    } else {
      TurnLiteral(input, base, table, bytes, htab[..], out[..], ip, op0, lit0, ok, next, op, lit);
    }
    if wild {
      WrapsOnlyLow(base, table[Bucket(input, ip)], ip);
    } else if ok && Uniform(input) && base >= 8192 {
      if ip >= 2 {
        refs := refs0 + 1;
        EnteredLast(input, base, table, ip, next);
        ProgressReference(input, base, table, ip, op0, lit0, refs0, htab[..], next, op);
      } else {
        EnteredHere(input, base, table, ip, next);
        ProgressShape(input, base, table, ip, op0, lit0, refs0);
        ProgressLiteral(input, base, table, ip, op0, lit0, refs0, htab[..]);
      }
    }
  }

  /** The parts of the output that the stream is made of are there. */
  ghost predicate Stage(input: seq<Byte>, o: seq<Byte>, ip: nat, op: nat, lit: nat) {
    lit < 32 && lit <= ip <= |input| && lit < op && op - lit - 1 <= |o|
  }

  lemma StageOf(input: seq<Byte>, o: seq<Byte>, ip: nat, op: nat, lit: nat)
    requires Pending(input, o, ip, op, lit)
    ensures Stage(input, o, ip, op, lit)
  {
  }

  /** The stream that comes of this state. */
  ghost function PackAt(input: seq<Byte>, base: Address, table: seq<Address>, o: seq<Byte>, ip: nat, op: nat, lit: nat): Option<seq<Byte>>
    requires |table| == HSIZE && base + |input| < ADDRESS_LIMIT && Stage(input, o, ip, op, lit)
  {
    Pack(input, base, table, ip, o[..op - lit - 1], input[ip - lit..ip], |o|)
  }

  lemma TurnWild(input: seq<Byte>, base: Address, table: seq<Address>, o: seq<Byte>, ip: nat, op0: nat, lit0: nat)
    requires |table| == HSIZE && base + |input| < ADDRESS_LIMIT && ip + 2 < |input| && Stage(input, o, ip, op0, lit0)
    requires Wraps(base, table[Bucket(input, ip)], ip)
    ensures PackAt(input, base, table, o, ip, op0, lit0) == None
  {
    hide Bucket, Wraps, Pack;
    PackWild(input, base, table, ip, o[..op0 - lit0 - 1], input[ip - lit0..ip], |o|);
  }

  lemma TurnLiteral(input: seq<Byte>, base: Address, table: seq<Address>, o: seq<Byte>, after: seq<Address>, r: seq<Byte>,
                    ip: nat, op0: nat, lit0: nat, ok: bool, next: nat, op: nat, lit: nat)
    requires |table| == |after| == HSIZE && base + |input| < ADDRESS_LIMIT && ip + 2 < |input| && |o| == |r|
    requires Pending(input, o, ip, op0, lit0) && Stage(input, o, ip, op0, lit0)
    requires !Wraps(base, table[Bucket(input, ip)], ip) && !Repeats(input, base, table[Bucket(input, ip)], ip)
    requires ok <==> op0 < |o|
    requires ok ==> next == ip + 1 && LiteralWritten(input, o, r, ip, op0, lit0, op, lit)
    requires ok ==> after == Entered(input, base, table, ip, next, false)
    ensures ok ==> Stage(input, r, next, op, lit)
    ensures PackAt(input, base, table, o, ip, op0, lit0) == if ok then PackAt(input, base, after, r, next, op, lit) else None
  {
    hide Decode, Bucket, Wraps, Repeats, Entered, Pack, Pending, Runs;
    PackLiteral(input, base, table, ip, o[..op0 - lit0 - 1], input[ip - lit0..ip], |o|);
    assert input[ip - lit0..ip] + [input[ip]] == input[ip - lit0..ip + 1];
    if ok {
      LiteralRuns(input, o, r, ip, op0, lit0, op, lit);
      assert input[ip + 1..ip + 1] == [];
    }
  }

  lemma TurnReference(input: seq<Byte>, base: Address, table: seq<Address>, o: seq<Byte>, after: seq<Address>, r: seq<Byte>,
                      ip: nat, op0: nat, lit0: nat, ok: bool, next: nat, op: nat, lit: nat)
    requires |table| == |after| == HSIZE && base + |input| < ADDRESS_LIMIT && ip + 2 < |input| && |o| == |r|
    requires Pending(input, o, ip, op0, lit0) && Stage(input, o, ip, op0, lit0)
    requires !Wraps(base, table[Bucket(input, ip)], ip) && Repeats(input, base, table[Bucket(input, ip)], ip)
    requires ok <==> op0 - (if lit0 == 0 then 1 else 0) + 4 < |o|
    requires ok ==> ReferenceWritten(input, o, r, ip, table[Bucket(input, ip)] - base, op0, lit0, next, op, lit)
    requires ok ==> after == Entered(input, base, table, ip, next, true)
    ensures ok ==> Stage(input, r, next, op, lit)
    ensures PackAt(input, base, table, o, ip, op0, lit0) == if ok then PackAt(input, base, after, r, next, op, lit) else None
  {
    hide Decode, Bucket, Wraps, Entered, Pack, Pending, ReferenceBytes, Runs, Closed, Reach;
    RepeatsAt(input, base, table[Bucket(input, ip)], ip);
    var ref: nat := table[Bucket(input, ip)] - base;
    ReachHere(|input| - ip);
    PackReference(input, base, table, ip, o[..op0 - lit0 - 1], input[ip - lit0..ip], |o|, MatchFrom(input, ref, ip, 3));
    if ok {
      MatchIs(input, ref, ip, next - ip, 3);
      ClosedRuns(input, o, ip, op0, lit0);
      assert input[next..next] == [];
    }
  }

  lemma ReachHere(rest: int)
    requires rest >= 3
    ensures 3 <= Reach(rest)
  {
  }

  lemma ClosedRuns(input: seq<Byte>, o: seq<Byte>, ip: nat, op: nat, lit: nat)
    requires Pending(input, o, ip, op, lit) && (if lit == 0 then op - 1 else op) <= |o|
    ensures lit < op && lit <= ip && Closed(o, op, lit) == o[..op - lit - 1] + Runs(input[ip - lit..ip])
  {
    hide Decode;
  }

  lemma EnteredLast(input: seq<Byte>, base: Address, table: seq<Address>, ip: nat, next: nat)
    requires |table| == HSIZE && base + |input| < ADDRESS_LIMIT && ip + 2 < |input| && ip < next && next >= 2
    ensures next + 2 < |input| ==> Entered(input, base, table, ip, next, true)[Bucket(input, next - 1)] == base + next - 1
  {
    hide Bucket;
  }

  lemma EnteredHere(input: seq<Byte>, base: Address, table: seq<Address>, ip: nat, next: nat)
    requires |table| == HSIZE && base + |input| < ADDRESS_LIMIT && ip + 2 < |input| && ip < next
    ensures Entered(input, base, table, ip, next, false) == table[Bucket(input, ip) := base + ip]
  {
    hide Bucket;
  }

  /** Some hash table leads astray if and only if the input is in the lowest 8 KB: here is one. */
  method LowInput(input: seq<Byte>, beyond: Byte, out: array<Byte>, base: Address) returns (n: nat, wild: bool)
    requires |input| >= 3 && out.Length > 0 && base < MAX_OFF && base + |input| < ADDRESS_LIMIT
    modifies out
    ensures wild
  {
    hide Decode, Bucket;
    var htab := new Address[HSIZE](_ => ADDRESS_LIMIT - 1);
    n, wild := Compress(input, beyond, out, htab, base);
  }

  /** The bytes too close to the end to be matched, and the end of the last run. */
  method Finish(input: seq<Byte>, out: array<Byte>, ip0: nat, op0: nat, lit0: nat, ghost full0: nat)
    returns (n: nat)
    requires 0 < |input| && |input| - 2 <= ip0 <= |input| && op0 + 3 <= out.Length
    requires Pending(input, out[..], ip0, op0, lit0) && Paid(ip0, op0, lit0, full0)
    modifies out
    ensures 0 < n <= out.Length && n <= |input| + |input| / 32 + 1
    ensures Decode(out[..n], [], |input|) == Done(input)
    ensures lit0 + |input| - ip0 < 32 ==> n == if lit0 + |input| - ip0 == 0 then op0 - 1 else op0 + |input| - ip0
    ensures lit0 < op0 <= |old(out[..])| && lit0 <= ip0
    ensures out[..n] == old(out[..op0 - lit0 - 1]) + Runs(input[ip0 - lit0..])
  {
    hide Decode, LiteralWritten, Runs, Pending, Paid;
    Bounds(input, out[..], ip0, op0, lit0, full0);
    var ip: nat, op: nat, lit: nat := ip0, op0, lit0;
    ghost var full: nat := full0;
    while ip < |input|
      invariant ip0 <= ip <= |input|
      invariant Pending(input, out[..], ip, op, lit) && Paid(ip, op, lit, full)
      invariant lit0 + |input| - ip0 < 32 ==> op == op0 + (ip - ip0) && lit == lit0 + (ip - ip0)
      invariant op <= op0 + (ip - ip0) + 1 && (op == op0 + (ip - ip0) + 1 ==> lit <= ip - ip0)
      invariant lit < 32 && lit < op && lit <= ip && op - lit - 1 <= out.Length
      invariant out[..op - lit - 1] + Runs(input[ip - lit..]) == old(out[..op0 - lit0 - 1]) + Runs(input[ip0 - lit0..])
    {
      op, lit, full := FinishOne(input, out, ip, op, lit, full);
      ip := ip + 1;
    }
    n := EndRun(input, out, op, lit, full);
  }

  /** One byte at the end, which leaves what is to be written as it was. */
  method FinishOne(input: seq<Byte>, out: array<Byte>, ip: nat, op0: nat, lit0: nat, ghost full0: nat)
    returns (op: nat, lit: nat, ghost full: nat)
    requires ip < |input| && op0 < out.Length && lit0 < 32 && lit0 < op0 && lit0 <= ip
    requires Pending(input, out[..], ip, op0, lit0) && Paid(ip, op0, lit0, full0)
    modifies out
    ensures Pending(input, out[..], ip + 1, op, lit) && Paid(ip + 1, op, lit, full)
    ensures lit < 32 && lit < op && lit <= ip + 1 && op - lit - 1 <= out.Length
    ensures if lit0 < 31 then op == op0 + 1 && lit == lit0 + 1 else op == op0 + 2 && lit == 0
    ensures out[..op - lit - 1] + Runs(input[ip + 1 - lit..]) == old(out[..op0 - lit0 - 1]) + Runs(input[ip - lit0..])
  {
    hide Decode, LiteralWritten, Runs, Pending, Paid;
    ghost var o := out[..];
    op, lit, full := PutLiteral(input, out, ip, op0, lit0, full0);
    LiteralRuns(input, o, out[..], ip, op0, lit0, op, lit);
    Bounds(input, out[..], ip + 1, op, lit, full);
    assert out[..][..op - lit - 1] == out[..op - lit - 1] && o[..op0 - lit0 - 1] == old(out[..op0 - lit0 - 1]);
  }

  lemma LiteralRuns(input: seq<Byte>, o: seq<Byte>, r: seq<Byte>, ip: nat, op0: nat, lit0: nat, op: nat, lit: nat)
    requires LiteralWritten(input, o, r, ip, op0, lit0, op, lit) && |o| == |r|
    requires lit0 <= ip && Pending(input, o, ip, op0, lit0)
    ensures lit < op && op - lit - 1 <= |r| && lit <= ip + 1
    ensures r[..op - lit - 1] + Runs(input[ip + 1 - lit..]) == o[..op0 - lit0 - 1] + Runs(input[ip - lit0..])
    ensures r[..op - lit - 1] == if lit0 < 31 then o[..op0 - lit0 - 1] else o[..op0 - lit0 - 1] + Runs(input[ip - 31..ip + 1])
  {
    hide Decode;
    var tokens, more := o[..op0 - lit0 - 1], input[ip - lit0..];
    if lit0 < 31 {
      assert r[..op - lit - 1] == tokens;
    } else {
      var run := input[ip - 31..ip + 1];
      assert run == input[ip - 31..ip] + [input[ip]];
      assert run == o[op0 - 31..op0] + [input[ip]];
      assert r[..op - lit - 1] == tokens + ([31] + run);
      assert more[..32] == run && more[32..] == input[ip + 1..];
      if |more| == 32 {
        assert more == run && input[ip + 1..] == [];
      }
    }
  }

  /** The last run closed, or its slot taken back. */
  method EndRun(input: seq<Byte>, out: array<Byte>, op: nat, lit: nat, ghost full: nat) returns (n: nat)
    requires 0 < |input| && op <= out.Length + (if lit == 0 then 1 else 0) && op - lit - 1 < out.Length
    requires Pending(input, out[..], |input|, op, lit) && Paid(|input|, op, lit, full)
    modifies out
    ensures 0 < n <= out.Length && n <= |input| + |input| / 32 + 1
    ensures Decode(out[..n], [], |input|) == Done(input) && n == (if lit == 0 then op - 1 else op)
    ensures lit < op && lit <= |input| && out[..n] == old(out[..op - lit - 1]) + Runs(input[|input| - lit..])
  {
    hide Decode;
    n := op;
    assert input[..|input|] == input;
    ghost var head := out[..op - lit - 1];
    ghost var run := out[..][op - lit..op];
    out[op - lit - 1] := (lit - 1) % 256;
    assert out[..][..op - lit - 1] == head;
    if lit == 0 {
      n := op - 1;
    } else {
      assert out[..][op - lit..op] == run;
      CloseRun(input, out[..], |input|, op, lit);
    }
    assert out[..][..n] == out[..n];
    assert run == input[|input| - lit..] || lit == 0;
    assert out[..n] == head + (if lit == 0 then [] else [lit - 1] + run);
    DecodeNothing([], |input|);
  }

  /** Round trip: what lzf_compress wrote, lzf_decompress turns back into the input. */
  method RoundTrip(input: seq<Byte>, beyond: Byte, packed: array<Byte>, htab: array<Address>, base: Address,
                   unpacked: array<Byte>)
    returns (n: nat, m: nat, wild: bool)
    requires htab.Length == HSIZE && base + |input| < ADDRESS_LIMIT
    requires packed != unpacked && |input| <= unpacked.Length
    modifies packed, htab, unpacked
    ensures n > 0 ==> m == |input| && unpacked[..m] == input
    ensures input != [] && packed.Length >= |input| + |input| / 32 + 4 && base >= MAX_OFF ==> n > 0
  {
    hide Decode;
    m := 0;
    n, wild := Compress(input, beyond, packed, htab, base);
    if n == 0 {
      return;
    }
    var status;
    DecodeMoreRoom(packed[..n], [], |input|, unpacked.Length);
    m, status := Decompress(packed[..n], unpacked);
  }
}
