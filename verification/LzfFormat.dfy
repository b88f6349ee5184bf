/**
  The LZF stream format of src/lzf: what a stream of control bytes, literals and back
  references stands for, independently of the two routines that write and read it.

    000LLLLL                    then L+1 literal bytes
    LLLooooo oooooooo           copy L+2 bytes from o+1 back        (L in 1..6)
    111ooooo LLLLLLLL oooooooo  copy L+9 bytes from o+1 back
*/
module LzfFormat {
  import opened Bytes

  const MAX_LIT := 32
  const MAX_OFF := 8192
  const MAX_REF := 264

  /** Why a stream does not decode; the two errno values of lzf_decompress. */
  datatype Decoded = Done(output: seq<Byte>) | TooBig | Invalid

  /** n bytes copied one at a time from dist back; the source may run into the copy. */
  function CopyBack(out: seq<Byte>, dist: nat, n: nat): seq<Byte>
    requires 1 <= dist <= |out|
    decreases n
  {
    if n == 0 then out else CopyBack(out + [out[|out| - dist]], dist, n - 1)
  }

  /** The first token of a stream: its length in the stream, or why it is cut short. */
  datatype Token =
    | Literals(size: nat, count: nat)
    | Reference(size: nat, dist: nat, count: nat)
    | CutShort

  function NextToken(s: seq<Byte>): Token
    requires s != []
  {
    var ctrl: int := s[0];
    if ctrl < MAX_LIT then Literals(ctrl + 2, ctrl + 1)
    else if |s| < 2 then CutShort
    else
      var second: int := s[1];
      if ctrl / 32 < 7 then Reference(2, ctrl % 32 * 256 + second + 1, ctrl / 32 + 2)
      else if |s| < 3 then CutShort
      else
        var third: int := s[2];
        Reference(3, ctrl % 32 * 256 + third + 1, second + 9)
  }

  /** The output of stream s after out, in a buffer of limit bytes, with the checks in order. */
  function Decode(s: seq<Byte>, out: seq<Byte>, limit: nat): Decoded
    decreases |s|
  {
    if s == [] then Done(out)
    else
      match NextToken(s)
      case Literals(size, count) =>
        if |out| + count > limit then TooBig
        else if size > |s| then Invalid
        else Decode(s[size..], out + s[1..size], limit)
      case Reference(size, dist, count) =>
        if |out| + count > limit then TooBig
        else if dist > |out| then Invalid
        else Decode(s[size..], CopyBack(out, dist, count), limit)
      case CutShort => Invalid
  }

  // ---------------------------------------------------------------- copying

  lemma {:induction false} CopyBackContents(out: seq<Byte>, dist: nat, n: nat)
    requires 1 <= dist <= |out|
    ensures var r := CopyBack(out, dist, n);
            |r| == |out| + n && out <= r && forall i | |out| <= i < |r| :: r[i] == r[i - dist]
    decreases n
  {
    if n > 0 {
      var next := out + [out[|out| - dist]];
      CopyBackContents(next, dist, n - 1);
      var r := CopyBack(next, dist, n - 1);
      assert r[|out|] == next[|out|];
      assert r[|out| - dist] == next[|out| - dist];
    }
  }

  /** The copied bytes are fixed by what precedes them. */
  lemma {:induction false} CopyBackUnique(out: seq<Byte>, dist: nat, n: nat, r: seq<Byte>)
    requires 1 <= dist <= |out| && |r| == |out| + n && out <= r
    requires forall i | |out| <= i < |r| :: r[i] == r[i - dist]
    ensures r == CopyBack(out, dist, n)
    decreases n
  {
    if n > 0 {
      assert r[|out|] == r[|out| - dist] == out[|out| - dist];
      CopyBackUnique(out + [out[|out| - dist]], dist, n - 1, r);
    }
  }

  /** A run of the input that repeats what stands dist bytes before it is that copy. */
  lemma MatchIsCopy(input: seq<Byte>, ip: nat, dist: nat, n: nat)
    requires 1 <= dist <= ip && ip + n <= |input|
    requires input[ip - dist..ip - dist + n] == input[ip..ip + n]
    ensures CopyBack(input[..ip], dist, n) == input[..ip + n]
  {
    var r := input[..ip + n];
    forall i | ip <= i < |r|
      ensures r[i] == r[i - dist]
    {
      assert input[ip..ip + n][i - ip] == input[ip - dist..ip - dist + n][i - ip];
    }
    CopyBackUnique(input[..ip], dist, n, r);
  }

  // ---------------------------------------------------------------- streams in a row

  lemma NextTokenOfPrefix(a: seq<Byte>, b: seq<Byte>)
    requires a != [] && !NextToken(a).CutShort?
    ensures NextToken(a + b) == NextToken(a)
  {
  }

  /** A stream that decodes can be followed by another, which starts from its output. */
  lemma {:induction false} DecodeConcat(a: seq<Byte>, b: seq<Byte>, out: seq<Byte>, limit: nat)
    requires Decode(a, out, limit).Done?
    ensures Decode(a + b, out, limit) == Decode(b, Decode(a, out, limit).output, limit)
    decreases |a|
  {
    if a == [] {
      assert a + b == b;
    } else {
      NextTokenOfPrefix(a, b);
      var size := NextToken(a).size;
      assert (a + b)[size..] == a[size..] + b;
      assert NextToken(a).Literals? ==> (a + b)[1..size] == a[1..size];
      match NextToken(a)
      case Literals(_, _) => DecodeConcat(a[size..], b, out + a[1..size], limit);
      case Reference(_, dist, count) => DecodeConcat(a[size..], b, CopyBack(out, dist, count), limit);
    }
  }

  /** More room never spoils a stream. */
  lemma {:induction false} DecodeMoreRoom(s: seq<Byte>, out: seq<Byte>, limit: nat, more: nat)
    requires Decode(s, out, limit).Done? && limit <= more
    ensures Decode(s, out, more) == Decode(s, out, limit)
    decreases |s|
  {
    if s != [] {
      var size := NextToken(s).size;
      match NextToken(s)
      case Literals(_, _) => DecodeMoreRoom(s[size..], out + s[1..size], limit, more);
      case Reference(_, dist, count) => DecodeMoreRoom(s[size..], CopyBack(out, dist, count), limit, more);
    }
  }

  lemma DecodeLiterals(run: seq<Byte>, out: seq<Byte>, limit: nat)
    requires 1 <= |run| <= MAX_LIT && |out| + |run| <= limit
    ensures Decode([|run| - 1] + run, out, limit) == Done(out + run)
  {
    var token: seq<Byte> := [|run| - 1] + run;
    assert token[0] == |run| - 1;
    assert NextToken(token) == Literals(|run| + 1, |run|);
    assert token[1..|run| + 1] == run;
    assert token[|run| + 1..] == [];
  }

  /** A closed run of literals appended to a stream. */
  lemma AppendLiterals(s: seq<Byte>, run: seq<Byte>, limit: nat)
    requires 1 <= |run| <= MAX_LIT
    requires Decode(s, [], limit).Done? && |Decode(s, [], limit).output| + |run| <= limit
    ensures Decode(s + ([|run| - 1] + run), [], limit) == Done(Decode(s, [], limit).output + run)
  {
    hide Decode;
    DecodeConcat(s, [|run| - 1] + run, [], limit);
    DecodeLiterals(run, Decode(s, [], limit).output, limit);
  }

  lemma DecodeReference(off: nat, len: nat, out: seq<Byte>, limit: nat)
    requires off < MAX_OFF && 1 <= len <= MAX_REF - 2
    requires |out| + len + 2 <= limit && off + 1 <= |out|
    ensures Decode(ReferenceBytes(off, len), out, limit) == Done(CopyBack(out, off + 1, len + 2))
  {
    hide CopyBack;
    var token := ReferenceBytes(off, len);
    assert NextToken(token) == Reference(|token|, off + 1, len + 2);
    assert token[|token|..] == [];
  }

  /** A back reference appended to a stream: two bytes for short matches, three for long ones. */
  lemma AppendReference(s: seq<Byte>, off: nat, len: nat, limit: nat)
    requires off < MAX_OFF && 1 <= len <= MAX_REF - 2
    requires Decode(s, [], limit).Done? && |Decode(s, [], limit).output| + len + 2 <= limit
    requires off + 1 <= |Decode(s, [], limit).output|
    ensures Decode(s + ReferenceBytes(off, len), [], limit)
         == Done(CopyBack(Decode(s, [], limit).output, off + 1, len + 2))
  {
    hide Decode, CopyBack, ReferenceBytes;
    DecodeConcat(s, ReferenceBytes(off, len), [], limit);
    DecodeReference(off, len, Decode(s, [], limit).output, limit);
  }

  /** The bytes lzf_compress writes for a match of len + 2 bytes at distance off + 1. */
  function ReferenceBytes(off: nat, len: nat): seq<Byte>
    requires off < MAX_OFF && 1 <= len <= MAX_REF - 2
  {
    if len < 7 then [off / 256 + len * 32, off % 256]
    else [off / 256 + 7 * 32, len - 7, off % 256]
  }
}
