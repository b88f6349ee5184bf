/**
  The quoting and splitting of src/sds/sds.c in characters: what every byte is written as, and what every
  character of a line does to the argument that is being read.
*/
module SdsText {
  import opened Wrappers
  import opened Bytes
  import opened SdsArgs

  ghost predicate Latin(s: string) {
    forall i | 0 <= i < |s| :: s[i] as int < 256
  }

  function Text(s: string): seq<Byte>
    requires Latin(s)
  {
    seq(|s|, i requires 0 <= i < |s| => s[i] as int)
  }

  const LOWER := "0123456789abcdef"
  const UPPER := "0123456789ABCDEF"

  /** The byte is the hexadecimal digit of this value. */
  ghost predicate IsDigit(b: Byte, v: nat) {
    v < 16 && (b == LOWER[v] as int || b == UPPER[v] as int)
  }

  ghost predicate IsHex(b: Byte) {
    exists v :: IsDigit(b, v)
  }

  /** What isspace accepts. */
  ghost predicate Blank(b: Byte) {
    b in Text(" \t\n\r") || b == 11 || b == 12
  }

  // ---------------------------------------------------------------- writing

  /** The letter behind the backslash for the bytes that have one. */
  ghost function Letter(b: Byte): Option<char> {
    if b == 10 then Some('n') else if b == 13 then Some('r') else if b == 9 then Some('t')
    else if b == 7 then Some('a') else if b == 8 then Some('b') else None
  }

  ghost function Hex(v: nat): Byte
    requires v < 16
  {
    LOWER[v] as int
  }

  /** How sds_catrepr writes one byte. */
  lemma WrittenAs(b: Byte)
    ensures b in Text("\\\"") ==> Escape(b) == Text("\\") + [b]
    ensures Letter(b).Some? ==> Escape(b) == Text("\\") + [Letter(b).value as int]
    ensures b !in Text("\\\"") && ' ' as int <= b <= '~' as int ==> Escape(b) == [b]
    ensures Letter(b).None? && !(' ' as int <= b <= '~' as int) ==> Escape(b) == Text("\\x") + [Hex(b / 16), Hex(b % 16)]
  {
    hide HexDigit, Hex, Text, Escape;
    Marks();
    if Letter(b).Some? {
      WithLetter(b);
    } else if ' ' as int <= b <= '~' as int {
      Printed(b);
    } else {
      InHex(b);
    }
  }

  lemma Marks()
    ensures Text("\\\"") == [92, 34] && Text("\\x") == [92, 120] && Text("\\") == [92]
  {
  }

  lemma WithLetter(b: Byte)
    requires Letter(b).Some?
    ensures Escape(b) == [92, Letter(b).value as int] && b != 92 && b != 34
  {
  }

  lemma Printed(b: Byte)
    requires 32 <= b <= 126
    ensures Escape(b) == if b == 92 || b == 34 then [92, b] else [b]
  {
  }

  lemma InHex(b: Byte)
    requires Letter(b).None? && !(32 <= b <= 126)
    ensures Escape(b) == [92, 120, Hex(b / 16), Hex(b % 16)]
  {
    hide HexDigit, Hex;
    DigitTable(b / 16);
    DigitTable(b % 16);
  }

  lemma DigitTable(v: nat)
    requires v < 16
    ensures HexDigit(v) == Hex(v) == LOWER[v] as int
    ensures HexValue(LOWER[v] as int) == HexValue(UPPER[v] as int) == v
    ensures IsHexDigit(LOWER[v] as int) && IsHexDigit(UPPER[v] as int)
  {
  }

  // ---------------------------------------------------------------- reading

  lemma HexIs(b: Byte)
    ensures IsHexDigit(b) <==> IsHex(b)
    ensures forall v | IsDigit(b, v) :: HexValue(b) == v && IsHexDigit(b)
  {
    forall v | IsDigit(b, v)
      ensures HexValue(b) == v && IsHexDigit(b)
    {
      DigitTable(v);
    }
    if IsHexDigit(b) {
      var v := HexValue(b);
      assert IsDigit(b, v);
    }
  }

  lemma BlankIs(b: Byte)
    ensures IsSpace(b) <==> Blank(b)
  {
    assert Text(" \t\n\r") == [32, 9, 10, 13];
  }

  /** Inside double quotes. */
  lemma InQuotes(s: seq<Byte>, current: seq<Byte>)
    ensures s == [] ==> Token(s, Quoted, current) == None
    ensures |s| >= 4 && s[..2] == Text("\\x") ==> forall h, l | IsDigit(s[2], h) && IsDigit(s[3], l) ::
                Token(s, Quoted, current) == Token(s[4..], Quoted, current + [16 * h + l])
    ensures |s| >= 2 && s[0] == '\\' as int && s[1] != 0 && !(s[1] == 'x' as int && |s| >= 4 && IsHex(s[2]) && IsHex(s[3])) ==>
              forall b: Byte | (if Letter(b).Some? then s[1] == Letter(b).value as int else s[1] == b && s[1] !in Text("nrtab")) ::
                Token(s, Quoted, current) == Token(s[2..], Quoted, current + [b])
    ensures s != [] && s[0] == '\"' as int ==>
              Token(s, Quoted, current) == if |s| == 1 || s[1] == 0 || Blank(s[1]) then Some((current, s[1..])) else None
    ensures s != [] && s[0] !in Text("\\\"") && s[0] != 0 ==> Token(s, Quoted, current) == Token(s[1..], Quoted, current + [s[0]])
  {
    hide Token, IsHexDigit, HexValue, IsSpace, IsHex, IsDigit, Blank;
    TokenStep(s, Quoted, current);
    assert Text("\\x") == [92, 120] && Text("\\\"") == [92, 34] && Text("nrtab") == [110, 114, 116, 97, 98];
    if |s| >= 2 {
      BlankIs(s[1]);
    }
    if |s| >= 4 {
      HexIs(s[2]);
      HexIs(s[3]);
      assert s[..2][0] == s[0] && s[..2][1] == s[1];
    }
    ZeroIsNoDigit();
  }

  lemma ZeroIsNoDigit()
    ensures !IsHexDigit(0)
  {
  }

  /** Inside single quotes. */
  lemma InSingleQuotes(s: seq<Byte>, current: seq<Byte>)
    ensures s == [] ==> Token(s, Single, current) == None
    ensures |s| >= 2 && s[..2] == Text("\\'") ==> Token(s, Single, current) == Token(s[2..], Single, current + Text("'"))
    ensures s != [] && s[0] == '\'' as int ==>
              Token(s, Single, current) == if |s| == 1 || s[1] == 0 || Blank(s[1]) then Some((current, s[1..])) else None
    ensures s != [] && s[0] != '\'' as int && s[0] != 0 && !(|s| >= 2 && s[..2] == Text("\\'")) ==>
              Token(s, Single, current) == Token(s[1..], Single, current + [s[0]])
  {
    hide Token, IsSpace, Blank;
    TokenStep(s, Single, current);
    assert Text("\\'") == [92, 39] && Text("'") == [39];
    if |s| >= 2 {
      BlankIs(s[1]);
      assert s[..2] == [s[0], s[1]];
    }
  }

  /** Outside quotes. */
  lemma OutsideQuotes(s: seq<Byte>, current: seq<Byte>)
    ensures s == [] ==> Token(s, Bare, current) == Some((current, s))
    ensures s != [] && s[0] in Text(" \n\r\t") ==> Token(s, Bare, current) == Some((current, s[1..]))
    ensures s != [] && s[0] == '\"' as int ==> Token(s, Bare, current) == Token(s[1..], Quoted, current)
    ensures s != [] && s[0] == '\'' as int ==> Token(s, Bare, current) == Token(s[1..], Single, current)
    ensures s != [] && s[0] != 0 && s[0] !in Text(" \n\r\t\"'") ==> Token(s, Bare, current) == Token(s[1..], Bare, current + [s[0]])
  {
    hide Token;
    TokenStep(s, Bare, current);
    assert Text(" \n\r\t") == [32, 10, 13, 9] && Text(" \n\r\t\"'") == [32, 10, 13, 9, 34, 39];
    assert current + [] == current && s[0..] == s;
  }

  /** Between arguments blanks are passed; the end, or a zero byte, ends the line. */
  lemma BetweenArguments(s: seq<Byte>)
    ensures s == [] || s[0] == 0 ==> Args(s) == Some([])
    ensures s != [] && Blank(s[0]) ==> Args(s) == Args(s[1..])
    ensures s != [] && s[0] != 0 && !Blank(s[0]) ==>
              Args(s) == match Token(s, Bare, [])
                         case None => None
                         case Some(t) => Prepend([t.0], Args(t.1))
  {
    hide Token, Args, IsSpace, Blank;
    if s != [] {
      BlankIs(s[0]);
      if Blank(s[0]) {
        BlankFirst(s);
      }
    }
    ZeroIsNoBlank();
    if s == [] || !Blank(s[0]) {
      ArgsStep(s, s);
    }
  }

  lemma ZeroIsNoBlank()
    ensures !IsSpace(0)
  {
  }
}
