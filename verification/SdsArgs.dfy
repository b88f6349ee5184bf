/**
  Quoting a string and splitting a line into arguments, src/sds/sds.c: whatever the bytes, a list of
  strings quoted with sds_catrepr and joined with spaces splits into the same list.
*/
module SdsArgs {
  import opened Wrappers
  import opened Bytes

  // ---------------------------------------------------------------- characters

  const QUOTE := 34
  const APOSTROPHE := 39
  const BACKSLASH := 92
  const SPACE := 32

  predicate IsPrint(b: Byte) {
    32 <= b <= 126
  }

  predicate IsSpace(b: Byte) {
    9 <= b <= 13 || b == SPACE
  }

  /** is_hex_digit. */
  predicate IsHexDigit(b: Byte) {
    48 <= b <= 57 || 97 <= b <= 102 || 65 <= b <= 70
  }

  /** hex_digit_to_int. */
  function HexValue(b: Byte): (r: nat)
    ensures r < 16
  {
    if 48 <= b <= 57 then b - 48 else if 97 <= b <= 102 then b - 87 else if 65 <= b <= 70 then b - 55 else 0
  }

  /** A digit as "%x" prints it. */
  function HexDigit(n: nat): (r: Byte)
    requires n < 16
    ensures IsHexDigit(r) && HexValue(r) == n
  {
    if n < 10 then 48 + n else 87 + n
  }

  // ---------------------------------------------------------------- quoting

  /** The representation of one byte inside quotes. */
  function Escape(b: Byte): (r: seq<Byte>)
    ensures r != []
  {
    if b == BACKSLASH || b == QUOTE then [BACKSLASH, b]
    else if b == 10 then [BACKSLASH, 110]
    else if b == 13 then [BACKSLASH, 114]
    else if b == 9 then [BACKSLASH, 116]
    else if b == 7 then [BACKSLASH, 97]
    else if b == 8 then [BACKSLASH, 98]
    else if IsPrint(b) then [b]
    else [BACKSLASH, 120, HexDigit(b / 16), HexDigit(b % 16)]
  }

  function Escapes(s: seq<Byte>): seq<Byte> {
    if s == [] then [] else Escape(s[0]) + Escapes(s[1..])
  }

  function Repr(s: seq<Byte>): seq<Byte> {
    [QUOTE] + Escapes(s) + [QUOTE]
  }

  lemma {:induction false} EscapesAppend(s: seq<Byte>, b: Byte)
    ensures Escapes(s + [b]) == Escapes(s) + Escape(b)
    decreases |s|
  {
    if s == [] {
      assert s + [b] == [b] && [b][1..] == [];
    } else {
      assert (s + [b])[1..] == s[1..] + [b];
      EscapesAppend(s[1..], b);
    }
  }

  /** sds_catrepr. */
  method CatRepr(s0: seq<Byte>, p: seq<Byte>) returns (s: seq<Byte>)
    ensures s == s0 + Repr(p)
  {
    hide Escape;
    s := s0 + [QUOTE];
    var i := 0;
    while i < |p|
      invariant i <= |p| && s == s0 + [QUOTE] + Escapes(p[..i])
    {
      EscapesAppend(p[..i], p[i]);
      assert p[..i + 1] == p[..i] + [p[i]];
      s := s + Escape(p[i]);
      i := i + 1;
    }
    assert p[..i] == p;
    s := s + [QUOTE];
  }

  // ---------------------------------------------------------------- splitting

  /** The byte at an index of a line that ends with a zero. */
  function At(s: seq<Byte>, i: nat): Byte {
    if i < |s| then s[i] else 0
  }

  datatype Mode = Bare | Quoted | Single

  /** One turn of the token loop: bytes used and what they add, the end of the token, or an error. */
  datatype Turn = More(used: nat, mode: Mode, add: seq<Byte>) | Done(used: nat) | Err

  function Unescape(b: Byte): Byte {
    if b == 110 then 10 else if b == 114 then 13 else if b == 116 then 9
    else if b == 98 then 8 else if b == 97 then 7 else b
  }

  /** A closing quote must be followed by a space or nothing at all. */
  function Close(next: Byte): Turn {
    if next != 0 && !IsSpace(next) then Err else Done(1)
  }

  function TurnQuoted(s: seq<Byte>): Turn {
    var c := At(s, 0);
    if c == BACKSLASH && At(s, 1) == 120 && IsHexDigit(At(s, 2)) && IsHexDigit(At(s, 3)) then
      More(4, Quoted, [HexValue(At(s, 2)) * 16 + HexValue(At(s, 3))])
    else if c == BACKSLASH && At(s, 1) != 0 then More(2, Quoted, [Unescape(At(s, 1))])
    else if c == QUOTE then Close(At(s, 1))
    else if c == 0 then Err
    else More(1, Quoted, [c])
  }

  function TurnSingle(s: seq<Byte>): Turn {
    var c := At(s, 0);
    if c == BACKSLASH && At(s, 1) == APOSTROPHE then More(2, Single, [APOSTROPHE])
    else if c == APOSTROPHE then Close(At(s, 1))
    else if c == 0 then Err
    else More(1, Single, [c])
  }

  function TurnBare(s: seq<Byte>): Turn {
    var c := At(s, 0);
    if c == SPACE || c == 10 || c == 13 || c == 9 then Done(1)
    else if c == 0 then Done(0)
    else if c == QUOTE then More(1, Quoted, [])
    else if c == APOSTROPHE then More(1, Single, [])
    else More(1, Bare, [c])
  }

  function OneTurn(s: seq<Byte>, mode: Mode): (t: Turn)
    ensures t.More? ==> 0 < t.used <= |s|
    ensures t.Done? ==> t.used <= |s|
  {
    match mode
    case Quoted => TurnQuoted(s)
    case Single => TurnSingle(s)
    case Bare => TurnBare(s)
  }

  /** A token and the rest of the line behind it. */
  function Token(s: seq<Byte>, mode: Mode, current: seq<Byte>): (r: Option<(seq<Byte>, seq<Byte>)>)
    ensures r.Some? ==> |r.value.1| <= |s|
    decreases |s|
  {
    var t := OneTurn(s, mode);
    match t
    case Err => None
    case Done(used) => Some((current, s[used..]))
    case More(used, next, add) => Token(s[used..], next, current + add)
  }

  function SkipBlanks(s: seq<Byte>): (r: seq<Byte>)
    ensures |r| <= |s| && !IsSpace(At(r, 0))
  {
    if IsSpace(At(s, 0)) then SkipBlanks(s[1..]) else s
  }

  /** A token that starts with a byte that is no blank uses it. */
  lemma {:induction false} TokenUses(s: seq<Byte>, mode: Mode, current: seq<Byte>)
    requires At(s, 0) != 0 && !IsSpace(At(s, 0)) && Token(s, mode, current).Some?
    ensures |Token(s, mode, current).value.1| < |s|
  {
    var t := OneTurn(s, mode);
  }

  /** The arguments of a line, or nothing for bad quoting. */
  function Args(s: seq<Byte>): Option<seq<seq<Byte>>>
    decreases |s|
  {
    var line := SkipBlanks(s);
    if At(line, 0) == 0 then Some([])
    else
      var t := Token(line, Bare, []);
      if t.None? then None
      else
        TokenUses(line, Bare, []);
        var more := Args(t.value.1);
        if more.None? then None else Some([t.value.0] + more.value)
  }

  /** Tokens already found in front of those of the rest. */
  function Prepend(found: seq<seq<Byte>>, more: Option<seq<seq<Byte>>>): Option<seq<seq<Byte>>> {
    if more.None? then None else Some(found + more.value)
  }

  lemma PrependNone(r: Option<seq<seq<Byte>>>)
    ensures Prepend([], r) == r
  {
    if r.Some? {
      assert [] + r.value == r.value;
    }
  }

  lemma PrependMore(found: seq<seq<Byte>>, x: seq<Byte>, r: Option<seq<seq<Byte>>>)
    ensures Prepend(found, Prepend([x], r)) == Prepend(found + [x], r)
  {
    if r.Some? {
      assert found + ([x] + r.value) == (found + [x]) + r.value;
    }
  }

  lemma ArgsStep(s: seq<Byte>, line: seq<Byte>)
    requires line == SkipBlanks(s)
    ensures At(line, 0) == 0 ==> Args(s) == Some([])
    ensures At(line, 0) != 0 && Token(line, Bare, []).None? ==> Args(s) == None
    ensures At(line, 0) != 0 && Token(line, Bare, []).Some? ==>
              var t := Token(line, Bare, []).value;
              |t.1| < |line| && Args(s) == Prepend([t.0], Args(t.1))
  {
    hide Token, SkipBlanks;
    if At(line, 0) != 0 && Token(line, Bare, []).Some? {
      SkipBlanksStops(s);
      TokenUses(line, Bare, []);
    }
  }

  lemma SkipBlanksStops(s: seq<Byte>)
    ensures !IsSpace(At(SkipBlanks(s), 0))
  {
  }

  lemma TokenStep(s: seq<Byte>, mode: Mode, current: seq<Byte>)
    ensures OneTurn(s, mode).Err? ==> Token(s, mode, current) == None
    ensures OneTurn(s, mode).Done? ==> Token(s, mode, current) == Some((current, s[OneTurn(s, mode).used..]))
    ensures OneTurn(s, mode).More? ==>
              var t := OneTurn(s, mode);
              Token(s, mode, current) == Token(s[t.used..], t.mode, current + t.add)
  {
    hide OneTurn;
  }

  /** The blank loop. */
  method Blanks(line: seq<Byte>, p0: nat) returns (p: nat)
    requires p0 <= |line|
    ensures p0 <= p <= |line| && line[p..] == SkipBlanks(line[p0..])
  {
    p := p0;
    while At(line, p) != 0 && IsSpace(At(line, p))
      invariant p0 <= p <= |line| && SkipBlanks(line[p..]) == SkipBlanks(line[p0..])
      decreases |line| - p
    {
      assert line[p..][1..] == line[p + 1..] && line[p..][0] == line[p];
      p := p + 1;
    }
    assert At(line[p..], 0) == At(line, p);
  }

  lemma Shifted(line: seq<Byte>, p: nat, i: nat)
    requires p <= |line|
    ensures At(line[p..], i) == At(line, p + i)
  {
  }

  /** The token loop. */
  method GetToken(line: seq<Byte>, p0: nat) returns (ok: bool, current: seq<Byte>, p: nat)
    requires p0 <= |line|
    ensures p0 <= p <= |line|
    ensures ok ==> Token(line[p0..], Bare, []) == Some((current, line[p..]))
    ensures !ok ==> Token(line[p0..], Bare, []) == None
  {
    hide TurnQuoted, TurnSingle, TurnBare;
    p, current := p0, [];
    var mode := Bare;
    while true
      invariant p0 <= p <= |line| && Token(line[p..], mode, current) == Token(line[p0..], Bare, [])
      decreases |line| - p
    {
      var t := Turned(line, p, mode);
      match t
      case Err =>
        return false, current, p;
      case Done(used) =>
        assert line[p..][used..] == line[p + used..];
        return true, current, p + used;
      case More(used, next, add) =>
        assert line[p..][used..] == line[p + used..];
        p, mode, current := p + used, next, current + add;
    }
  }

  /** The body of the token loop, reading the line at p and behind. */
  method Turned(line: seq<Byte>, p: nat, mode: Mode) returns (t: Turn)
    requires p <= |line|
    ensures t == OneTurn(line[p..], mode)
  {
    Shifted(line, p, 0);
    Shifted(line, p, 1);
    Shifted(line, p, 2);
    Shifted(line, p, 3);
    var c, c1 := At(line, p), At(line, p + 1);
    match mode
    case Quoted =>
      if c == BACKSLASH && c1 == 120 && IsHexDigit(At(line, p + 2)) && IsHexDigit(At(line, p + 3)) {
        t := More(4, Quoted, [HexValue(At(line, p + 2)) * 16 + HexValue(At(line, p + 3))]);
      } else if c == BACKSLASH && c1 != 0 {
        t := More(2, Quoted, [Unescape(c1)]);
      } else if c == QUOTE {
        t := Close(c1);
      } else if c == 0 {
        t := Err;
      } else {
        t := More(1, Quoted, [c]);
      }
    case Single =>
      if c == BACKSLASH && c1 == APOSTROPHE {
        t := More(2, Single, [APOSTROPHE]);
      } else if c == APOSTROPHE {
        t := Close(c1);
      } else if c == 0 {
        t := Err;
      } else {
        t := More(1, Single, [c]);
      }
    case Bare =>
      if c == SPACE || c == 10 || c == 13 || c == 9 {
        t := Done(1);
      } else if c == 0 {
        t := Done(0);
      } else if c == QUOTE {
        t := More(1, Quoted, []);
      } else if c == APOSTROPHE {
        t := More(1, Single, []);
      } else {
        t := More(1, Bare, [c]);
      }
  }

  /** sds_split_args. */
  method SplitArgs(line: seq<Byte>) returns (r: Option<seq<seq<Byte>>>)
    ensures r == Args(line)
  {
    hide Token, SkipBlanks, Args, Prepend;
    var vector := [];
    var p := 0;
    assert line[0..] == line;
    PrependNone(Args(line));
    while true
      invariant p <= |line| && Args(line) == Prepend(vector, Args(line[p..]))
      decreases |line| - p
    {
      var q := Blanks(line, p);
      Shifted(line, q, 0);
      ArgsStep(line[p..], line[q..]);
      if At(line, q) == 0 {
        PrependEnd(vector);
        return Some(vector);
      }
      var ok, current, after := GetToken(line, q);
      if !ok {
        PrependEnd(vector);
        return None;
      }
      PrependMore(vector, current, Args(line[after..]));
      vector := vector + [current];
      p := after;
    }
  }

  lemma PrependEnd(found: seq<seq<Byte>>)
    ensures Prepend(found, Some([])) == Some(found) && Prepend(found, None) == None
  {
    assert found + [] == found;
  }

  // ---------------------------------------------------------------- the round trip

  /** An escaped byte inside quotes is that byte again. */
  lemma EscapeTurn(b: Byte, rest: seq<Byte>)
    ensures OneTurn(Escape(b) + rest, Quoted) == More(|Escape(b)|, Quoted, [b])
  {
    var s := Escape(b) + rest;
    assert b / 16 * 16 + b % 16 == b;
  }

  lemma {:induction false} EscapesToken(x: seq<Byte>, rest: seq<Byte>, current: seq<Byte>)
    requires At(rest, 0) == 0 || IsSpace(At(rest, 0))
    ensures Token(Escapes(x) + ([QUOTE] + rest), Quoted, current) == Some((current + x, rest))
    decreases |x|
  {
    hide Escape, Token, OneTurn;
    if x == [] {
      var s := [QUOTE] + rest;
      assert Escapes(x) + s == s && s[1..] == rest && current + x == current;
      QuoteCloses(rest);
      TokenStep(s, Quoted, current);
    } else {
      var e, tail := Escape(x[0]), Escapes(x[1..]) + ([QUOTE] + rest);
      var s := Escapes(x) + ([QUOTE] + rest);
      assert s == e + tail;
      EscapeTurn(x[0], tail);
      TokenStep(s, Quoted, current);
      assert s[|e|..] == tail;
      EscapesToken(x[1..], rest, current + [x[0]]);
      assert (current + [x[0]]) + x[1..] == current + x;
    }
  }

  lemma QuoteCloses(rest: seq<Byte>)
    requires At(rest, 0) == 0 || IsSpace(At(rest, 0))
    ensures OneTurn([QUOTE] + rest, Quoted) == Done(1)
  {
    assert At([QUOTE] + rest, 1) == At(rest, 0);
  }

  lemma ReprToken(x: seq<Byte>, rest: seq<Byte>)
    requires At(rest, 0) == 0 || IsSpace(At(rest, 0))
    ensures Token(Repr(x) + rest, Bare, []) == Some((x, rest))
  {
    hide Escapes, Token;
    var s := Repr(x) + rest;
    assert s[1..] == Escapes(x) + ([QUOTE] + rest);
    assert OneTurn(s, Bare) == More(1, Quoted, []);
    TokenStep(s, Bare, []);
    var none: seq<Byte> := [];
    assert none + x == x && none + none == none;
    EscapesToken(x, rest, []);
  }

  /** The quoted strings with a space between them. */
  function Joined(xs: seq<seq<Byte>>): seq<Byte> {
    if xs == [] then [] else if |xs| == 1 then Repr(xs[0]) else Repr(xs[0]) + ([SPACE] + Joined(xs[1..]))
  }

  /** Quoting, joining and splitting is the identity on every list of byte strings. */
  lemma {:induction false} RoundTrip(xs: seq<seq<Byte>>)
    ensures Args(Joined(xs)) == Some(xs)
    decreases |xs|
  {
    hide Repr, Token, Args;
    if xs == [] {
      ArgsStep([], []);
    } else {
      var line := Joined(xs);
      var rest := if |xs| == 1 then [] else [SPACE] + Joined(xs[1..]);
      assert line == Repr(xs[0]) + rest;
      ReprStarts(xs[0], rest);
      assert SkipBlanks(line) == line;
      ReprToken(xs[0], rest);
      ArgsStep(line, line);
      RestArgs(xs, rest);
      assert [xs[0]] + xs[1..] == xs;
    }
  }

  lemma {:induction false} RestArgs(xs: seq<seq<Byte>>, rest: seq<Byte>)
    requires xs != [] && rest == if |xs| == 1 then [] else [SPACE] + Joined(xs[1..])
    ensures Args(rest) == Some(xs[1..])
    decreases |xs|, 0
  {
    if |xs| == 1 {
      assert xs[1..] == [];
    } else {
      assert rest[1..] == Joined(xs[1..]);
      BlankFirst(rest);
      RoundTrip(xs[1..]);
    }
  }

  lemma BlankFirst(s: seq<Byte>)
    requires IsSpace(At(s, 0))
    ensures Args(s) == Args(s[1..])
  {
    hide Token;
  }

  lemma ReprStarts(x: seq<Byte>, rest: seq<Byte>)
    ensures At(Repr(x) + rest, 0) == QUOTE
  {
  }

  // ---------------------------------------------------------------- other tokens, and errors

  /** A byte that stands for itself outside quotes. */
  predicate IsBare(b: Byte) {
    b != 0 && b != SPACE && b != 10 && b != 13 && b != 9 && b != QUOTE && b != APOSTROPHE
  }

  predicate EndsBare(b: Byte) {
    b == 0 || b == SPACE || b == 10 || b == 13 || b == 9
  }

  /** A word without quotes is a token as it stands, up to a blank that ends it. */
  lemma {:induction false} BareWord(x: seq<Byte>, rest: seq<Byte>, current: seq<Byte>)
    requires (forall i | 0 <= i < |x| :: IsBare(x[i])) && EndsBare(At(rest, 0))
    ensures Token(x + rest, Bare, current) == Some((current + x, if At(rest, 0) == 0 then rest else rest[1..]))
    decreases |x|
  {
    hide Token;
    var s := x + rest;
    TokenStep(s, Bare, current);
    if x == [] {
      assert s == rest && current + x == current && rest[0..] == rest;
    } else {
      assert s[1..] == x[1..] + rest && At(s, 0) == x[0];
      BareWord(x[1..], rest, current + [x[0]]);
      assert (current + [x[0]]) + x[1..] == current + x;
    }
  }

  /** Single quotes: only the quote itself is escaped. */
  function SingleEscapes(x: seq<Byte>): seq<Byte> {
    if x == [] then []
    else (if x[0] == APOSTROPHE then [BACKSLASH, APOSTROPHE] else [x[0]]) + SingleEscapes(x[1..])
  }

  /** In single quotes every byte but zero and the backslash stands for itself. */
  lemma {:induction false} SingleQuoted(x: seq<Byte>, rest: seq<Byte>, current: seq<Byte>)
    requires At(rest, 0) == 0 || IsSpace(At(rest, 0))
    requires forall i | 0 <= i < |x| :: x[i] != BACKSLASH && x[i] != 0
    ensures Token(SingleEscapes(x) + ([APOSTROPHE] + rest), Single, current) == Some((current + x, rest))
    decreases |x|
  {
    hide Token;
    var s := SingleEscapes(x) + ([APOSTROPHE] + rest);
    TokenStep(s, Single, current);
    if x == [] {
      assert s == [APOSTROPHE] + rest && s[1..] == rest && current + x == current;
      assert At(s, 1) == At(rest, 0);
    } else {
      var n := if x[0] == APOSTROPHE then 2 else 1;
      assert s[n..] == SingleEscapes(x[1..]) + ([APOSTROPHE] + rest);
      SingleQuoted(x[1..], rest, current + [x[0]]);
      assert (current + [x[0]]) + x[1..] == current + x;
    }
  }

  lemma {:induction false} OpenQuote(x: seq<Byte>, current: seq<Byte>)
    ensures Token(Escapes(x), Quoted, current) == None
    decreases |x|
  {
    hide Token, Escape, OneTurn;
    if x == [] {
      NothingQuoted();
      TokenStep([], Quoted, current);
    } else {
      var e, tail := Escape(x[0]), Escapes(x[1..]);
      EscapeTurn(x[0], tail);
      TokenStep(e + tail, Quoted, current);
      assert (e + tail)[|e|..] == tail;
      OpenQuote(x[1..], current + [x[0]]);
    }
  }

  lemma NothingQuoted()
    ensures OneTurn([], Quoted) == Err
  {
  }

  /** A quote that is never closed is an error. */
  lemma Unbalanced(x: seq<Byte>)
    ensures Args([QUOTE] + Escapes(x)) == None
  {
    hide Token, Escapes, Args;
    var s := [QUOTE] + Escapes(x);
    assert SkipBlanks(s) == s;
    assert OneTurn(s, Bare) == More(1, Quoted, []);
    TokenStep(s, Bare, []);
    var none: seq<Byte> := [];
    assert s[1..] == Escapes(x) && none + none == none;
    OpenQuote(x, []);
    ArgsStep(s, s);
  }

  lemma {:induction false} GluedToken(x: seq<Byte>, rest: seq<Byte>, current: seq<Byte>)
    requires At(rest, 0) != 0 && !IsSpace(At(rest, 0))
    ensures Token(Escapes(x) + ([QUOTE] + rest), Quoted, current) == None
    decreases |x|
  {
    hide Token, Escape, OneTurn;
    var s := Escapes(x) + ([QUOTE] + rest);
    if x == [] {
      assert s == [QUOTE] + rest;
      QuoteGlued(rest);
      TokenStep(s, Quoted, current);
    } else {
      var e, tail := Escape(x[0]), Escapes(x[1..]) + ([QUOTE] + rest);
      assert s == e + tail && s[|e|..] == tail;
      EscapeTurn(x[0], tail);
      TokenStep(s, Quoted, current);
      GluedToken(x[1..], rest, current + [x[0]]);
    }
  }

  lemma QuoteGlued(rest: seq<Byte>)
    requires At(rest, 0) != 0 && !IsSpace(At(rest, 0))
    ensures OneTurn([QUOTE] + rest, Quoted) == Err
  {
    assert At([QUOTE] + rest, 1) == At(rest, 0);
  }

  /** A closed quote followed by anything but a blank is an error. */
  lemma Glued(x: seq<Byte>, rest: seq<Byte>)
    requires At(rest, 0) != 0 && !IsSpace(At(rest, 0))
    ensures Args(Repr(x) + rest) == None
  {
    hide Token, Escapes, Args;
    var s := Repr(x) + rest;
    ReprStarts(x, rest);
    assert SkipBlanks(s) == s;
    assert OneTurn(s, Bare) == More(1, Quoted, []);
    TokenStep(s, Bare, []);
    var none: seq<Byte> := [];
    assert s[1..] == Escapes(x) + ([QUOTE] + rest) && none + none == none;
    GluedToken(x, rest, []);
    ArgsStep(s, s);
  }
}
