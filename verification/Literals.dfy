// C# string literals as the fixture harvester decodes them (section 6.4.5.6 of
// ECMA-334, 6th edition). Source text is a Go byte string; one char is one byte.
module Literals {
  import opened Collecting
  import opened Options

  // ------------------------------------------- literals as the decoder sees them

  // One element of a regular literal: a character standing for itself, or a
  // backslash and any character.
  datatype Piece = Raw(c: char) | Escape(c: char)

  predicate ValidPieces(pieces: seq<Piece>, quote: char)
  {
    forall i :: 0 <= i < |pieces| ==> pieces[i].Raw? ==> pieces[i].c != quote && pieces[i].c != '\\'
  }

  function RenderPiece(piece: Piece): string
  {
    match piece
    case Raw(c) => [c]
    case Escape(c) => ['\\', c]
  }

  function RenderPieces(pieces: seq<Piece>): string
  {
    if pieces == [] then "" else RenderPiece(pieces[0]) + RenderPieces(pieces[1..])
  }

  // Escapes the harvester does not know keep their character.
  function EscapeValue(c: char): char
  {
    match c
    case 'n' => '\n'
    case 't' => '\t'
    case 'r' => '\r'
    case '0' => '\0'
    case _ => c
  }

  function PieceValues(pieces: seq<Piece>): string
  {
    if pieces == [] then ""
    else [if pieces[0].Raw? then pieces[0].c else EscapeValue(pieces[0].c)] + PieceValues(pieces[1..])
  }

  // One element of a verbatim literal.
  datatype VerbatimPiece = Verbatim(c: char) | QuotePair

  predicate ValidVerbatim(pieces: seq<VerbatimPiece>)
  {
    forall i :: 0 <= i < |pieces| ==> pieces[i].Verbatim? ==> pieces[i].c != '"'
  }

  function RenderVerbatim(pieces: seq<VerbatimPiece>): string
  {
    if pieces == [] then ""
    else (if pieces[0].QuotePair? then "\"\"" else [pieces[0].c]) + RenderVerbatim(pieces[1..])
  }

  function VerbatimValues(pieces: seq<VerbatimPiece>): string
  {
    if pieces == [] then ""
    else [if pieces[0].QuotePair? then '"' else pieces[0].c] + VerbatimValues(pieces[1..])
  }

  predicate StartsWith(s: string, c: char) { s != "" && s[0] == c }

  // ----------------------------------------------------------- the decoders

  function Prepend(c: char, rest: Option<string>): Option<string>
  {
    if rest.None? then None else Some([c] + rest.value)
  }

  function RegularValue(s: string): Option<string>
  {
    if s == "" then None
    else if s[0] == '\\' then
      if |s| == 1 then None else Prepend(EscapeValue(s[1]), RegularValue(s[2..]))
    else if s[0] == '"' then Some("")
    else Prepend(s[0], RegularValue(s[1..]))
  }

  function VerbatimValue(s: string): Option<string>
  {
    if s == "" then None
    else if s[0] == '"' then
      if StartsWith(s[1..], '"') then Prepend('"', VerbatimValue(s[2..])) else Some("")
    else Prepend(s[0], VerbatimValue(s[1..]))
  }

  // What the whole decode is, given what has been written so far.
  function Extend(written: string, rest: Option<string>): Option<string>
  {
    if rest.None? then None else Some(written + rest.value)
  }

  lemma ExtendPrepend(written: string, c: char, rest: Option<string>)
    ensures Extend(written, Prepend(c, rest)) == Extend(written + [c], rest)
  {
    if rest.Some? { assert written + ([c] + rest.value) == written + [c] + rest.value; }
  }

  lemma ExtendNothing(rest: Option<string>)
    ensures Extend("", rest) == rest
  {
    if rest.Some? { assert "" + rest.value == rest.value; }
  }

  method DecodeRegular(s: string) returns (value: Option<string>)
    ensures value == RegularValue(s)
  {
    var b := "";
    var i := 0;
    assert s[0..] == s;
    ExtendNothing(RegularValue(s));
    while i < |s|
      invariant i <= |s| && RegularValue(s) == Extend(b, RegularValue(s[i..]))
    {
      var c := s[i];
      if c == '\\' {
        if i + 1 >= |s| { return None; }
        ExtendPrepend(b, EscapeValue(s[i + 1]), RegularValue(s[i..][2..]));
        assert s[i..][2..] == s[i + 2..];
        b := b + [EscapeValue(s[i + 1])];
        i := i + 2;
      } else if c == '"' {
        assert b + "" == b;
        return Some(b);
      } else {
        ExtendPrepend(b, c, RegularValue(s[i..][1..]));
        assert s[i..][1..] == s[i + 1..];
        b := b + [c];
        i := i + 1;
      }
    }
    value := None;
  }

  method DecodeVerbatim(s: string) returns (value: Option<string>)
    ensures value == VerbatimValue(s)
  {
    var b := "";
    var i := 0;
    assert s[0..] == s;
    ExtendNothing(VerbatimValue(s));
    while i < |s|
      invariant i <= |s| && VerbatimValue(s) == Extend(b, VerbatimValue(s[i..]))
    {
      var c := s[i];
      if c == '"' && i + 1 < |s| && s[i + 1] == '"' {
        ExtendPrepend(b, '"', VerbatimValue(s[i..][2..]));
        assert s[i..][2..] == s[i + 2..];
        b := b + ['"'];
        i := i + 2;
      } else if c == '"' {
        assert b + "" == b;
        return Some(b);
      } else {
        ExtendPrepend(b, c, VerbatimValue(s[i..][1..]));
        assert s[i..][1..] == s[i + 1..];
        b := b + [c];
        i := i + 1;
      }
    }
    value := None;
  }

  // --------------------------------------------- decoding against the grammar

  // Every closed sequence of pieces decodes to their values in the decoder's table,
  // whatever follows the closing quote. CsValueExactly relates them to C#'s.
  lemma {:induction false} RegularComplete(pieces: seq<Piece>, rest: string)
    requires ValidPieces(pieces, '"')
    ensures RegularValue(RenderPieces(pieces) + "\"" + rest) == Some(PieceValues(pieces))
  {
    var s := RenderPieces(pieces) + "\"" + rest;
    if pieces != [] {
      RegularComplete(pieces[1..], rest);
      assert s == RenderPiece(pieces[0]) + (RenderPieces(pieces[1..]) + "\"" + rest);
    }
  }

  // What decodes is a closed sequence of pieces: an unterminated one never does.
  lemma {:induction false} RegularSound(s: string) returns (pieces: seq<Piece>, rest: string)
    requires RegularValue(s).Some?
    ensures ValidPieces(pieces, '"') && s == RenderPieces(pieces) + "\"" + rest
    ensures RegularValue(s).value == PieceValues(pieces)
  {
    if s[0] == '"' {
      pieces, rest := [], s[1..];
    } else {
      var piece, n := if s[0] == '\\' then Escape(s[1]) else Raw(s[0]), if s[0] == '\\' then 2 else 1;
      var tail: seq<Piece>;
      tail, rest := RegularSound(s[n..]);
      pieces := [piece] + tail;
      assert s == RenderPiece(piece) + s[n..];
    }
  }

  ghost predicate RegularTerminated(s: string)
  {
    exists pieces: seq<Piece>, rest: string ::
      ValidPieces(pieces, '"') && s == RenderPieces(pieces) + "\"" + rest
  }

  lemma RegularRejects(s: string)
    ensures RegularValue(s).Some? <==> RegularTerminated(s)
  {
    if RegularValue(s).Some? {
      var pieces, rest := RegularSound(s);
    }
    if RegularTerminated(s) {
      var pieces: seq<Piece>, rest: string :| ValidPieces(pieces, '"') && s == RenderPieces(pieces) + "\"" + rest;
      RegularComplete(pieces, rest);
    }
  }

  lemma {:induction false} VerbatimComplete(pieces: seq<VerbatimPiece>, rest: string)
    requires ValidVerbatim(pieces) && !StartsWith(rest, '"')
    ensures VerbatimValue(RenderVerbatim(pieces) + "\"" + rest) == Some(VerbatimValues(pieces))
  {
    var s := RenderVerbatim(pieces) + "\"" + rest;
    if pieces == [] {
      assert s[1..] == rest;
    } else {
      VerbatimComplete(pieces[1..], rest);
      var first := if pieces[0].QuotePair? then "\"\"" else [pieces[0].c];
      assert s == first + (RenderVerbatim(pieces[1..]) + "\"" + rest);
    }
  }

  lemma {:induction false} VerbatimSound(s: string) returns (pieces: seq<VerbatimPiece>, rest: string)
    requires VerbatimValue(s).Some?
    ensures ValidVerbatim(pieces) && !StartsWith(rest, '"') && s == RenderVerbatim(pieces) + "\"" + rest
    ensures VerbatimValue(s).value == VerbatimValues(pieces)
  {
    if s[0] == '"' && !StartsWith(s[1..], '"') {
      pieces, rest := [], s[1..];
    } else {
      var piece, n := if s[0] == '"' then QuotePair else Verbatim(s[0]), if s[0] == '"' then 2 else 1;
      var tail: seq<VerbatimPiece>;
      tail, rest := VerbatimSound(s[n..]);
      pieces := [piece] + tail;
      assert s == (if piece.QuotePair? then "\"\"" else [s[0]]) + s[n..];
    }
  }

  ghost predicate VerbatimTerminated(s: string)
  {
    exists pieces: seq<VerbatimPiece>, rest: string ::
      ValidVerbatim(pieces) && !StartsWith(rest, '"') && s == RenderVerbatim(pieces) + "\"" + rest
  }

  lemma VerbatimRejects(s: string)
    ensures VerbatimValue(s).Some? <==> VerbatimTerminated(s)
  {
    if VerbatimValue(s).Some? {
      var pieces, rest := VerbatimSound(s);
    }
    if VerbatimTerminated(s) {
      var pieces: seq<VerbatimPiece>, rest: string :|
        ValidVerbatim(pieces) && !StartsWith(rest, '"') && s == RenderVerbatim(pieces) + "\"" + rest;
      VerbatimComplete(pieces, rest);
    }
  }

  // ----------------------------------------------- what C# says a literal means

  // One element of a regular string literal (sections 6.4.5.5 and 6.4.5.6 of
  // ECMA-334): a character, a simple escape, or a hexadecimal or Unicode escape.
  datatype CsPiece = Single(c: char) | Simple(c: char) | Hex(digits: string) | Unicode4(digits: string) | Unicode8(digits: string)

  predicate IsHexDigit(c: char) { '0' <= c <= '9' || 'a' <= c <= 'f' || 'A' <= c <= 'F' }

  predicate AllHex(s: string) { forall i :: 0 <= i < |s| ==> IsHexDigit(s[i]) }

  function HexDigit(c: char): (d: nat)
    requires IsHexDigit(c)
    ensures d < 16
  {
    if c <= '9' then (c - '0') as nat else if c <= 'F' then (c - 'A') as nat + 10 else (c - 'a') as nat + 10
  }

  function HexValue(s: string): nat
    requires AllHex(s)
  {
    if s == "" then 0 else 16 * HexValue(s[..|s| - 1]) + HexDigit(s[|s| - 1])
  }

  const SIMPLE_ESCAPES := {'\'', '"', '\\', '0', 'a', 'b', 'f', 'n', 'r', 't', 'v'}

  // A piece as it stands before the next: a hexadecimal escape takes up to four
  // digits, as many as there are.
  predicate ValidCsPiece(piece: CsPiece, after: seq<CsPiece>)
  {
    match piece
    case Single(c) => c != '"' && c != '\\' && c != '\r' && c != '\n'
    case Simple(c) => c in SIMPLE_ESCAPES
    case Hex(digits) =>
      && 1 <= |digits| <= 4 && AllHex(digits)
      && (|digits| < 4 && after != [] && after[0].Single? ==> !IsHexDigit(after[0].c))
    case Unicode4(digits) => |digits| == 4 && AllHex(digits)
    case Unicode8(digits) => |digits| == 8 && AllHex(digits) && HexValue(digits) <= 0x10FFFF
  }

  predicate ValidCs(pieces: seq<CsPiece>)
  {
    pieces != [] ==> ValidCsPiece(pieces[0], pieces[1..]) && ValidCs(pieces[1..])
  }

  function RenderCsPiece(piece: CsPiece): string
  {
    match piece
    case Single(c) => [c]
    case Simple(c) => ['\\', c]
    case Hex(digits) => ['\\', 'x'] + digits
    case Unicode4(digits) => ['\\', 'u'] + digits
    case Unicode8(digits) => ['\\', 'U'] + digits
  }

  function RenderCs(pieces: seq<CsPiece>): string
  {
    if pieces == [] then "" else RenderCsPiece(pieces[0]) + RenderCs(pieces[1..])
  }

  function SimpleValue(c: char): char
  {
    match c
    case '0' => 0 as char
    case 'a' => 7 as char
    case 'b' => 8 as char
    case 't' => 9 as char
    case 'n' => 10 as char
    case 'v' => 11 as char
    case 'f' => 12 as char
    case 'r' => 13 as char
    case _ => c
  }

  // The UTF-8 bytes of a code point. Each half of a surrogate pair that a literal
  // spells as two escapes is written on its own here.
  function Utf8(n: nat): (bytes: string)
    requires n <= 0x10FFFF
    ensures |bytes| == if n < 0x80 then 1 else if n < 0x800 then 2 else if n < 0x10000 then 3 else 4
  {
    if n < 0x80 then [n as char]
    else if n < 0x800 then [(0xC0 + n / 64) as char, (0x80 + n % 64) as char]
    else if n < 0x10000 then [(0xE0 + n / 4096) as char, (0x80 + n / 64 % 64) as char, (0x80 + n % 64) as char]
    else [(0xF0 + n / 262144) as char, (0x80 + n / 4096 % 64) as char, (0x80 + n / 64 % 64) as char, (0x80 + n % 64) as char]
  }

  lemma {:induction false} HexBound(s: string)
    requires AllHex(s) && |s| <= 4
    ensures HexValue(s) < (if |s| == 0 then 1 else if |s| == 1 then 16 else if |s| == 2 then 256
                           else if |s| == 3 then 4096 else 65536)
  {
    if s != "" { HexBound(s[..|s| - 1]); }
  }

  // The value C# gives a piece, in the bytes of the source encoding.
  function CsPieceValue(piece: CsPiece): string
    requires ValidCsPiece(piece, [])
  {
    match piece
    case Single(c) => [c]
    case Simple(c) => [SimpleValue(c)]
    case Hex(digits) => HexBound(digits); Utf8(HexValue(digits))
    case Unicode4(digits) => HexBound(digits); Utf8(HexValue(digits))
    case Unicode8(digits) => Utf8(HexValue(digits))
  }

  function CsValue(pieces: seq<CsPiece>): string
    requires ValidCs(pieces)
  {
    if pieces == [] then "" else CsPieceValue(pieces[0]) + CsValue(pieces[1..])
  }

  // How the harvester reads a piece: an escape it does not know keeps its letter, and
  // digits stay digits.
  function Raws(s: string): (pieces: seq<Piece>)
    ensures |pieces| == |s| && forall i :: 0 <= i < |s| ==> pieces[i] == Raw(s[i])
  {
    if s == "" then [] else [Raw(s[0])] + Raws(s[1..])
  }

  function Reading(piece: CsPiece): seq<Piece>
  {
    match piece
    case Single(c) => [Raw(c)]
    case Simple(c) => [Escape(c)]
    case Hex(digits) => [Escape('x')] + Raws(digits)
    case Unicode4(digits) => [Escape('u')] + Raws(digits)
    case Unicode8(digits) => [Escape('U')] + Raws(digits)
  }

  function Readings(pieces: seq<CsPiece>): seq<Piece>
  {
    if pieces == [] then [] else Reading(pieces[0]) + Readings(pieces[1..])
  }

  lemma {:induction false} RenderSplit(a: seq<Piece>, b: seq<Piece>)
    ensures RenderPieces(a + b) == RenderPieces(a) + RenderPieces(b)
  {
    if a == [] {
      assert a + b == b;
    } else {
      RenderSplit(a[1..], b);
      assert (a + b)[0] == a[0] && (a + b)[1..] == a[1..] + b;
      Associate(RenderPiece(a[0]), RenderPieces(a[1..]), RenderPieces(b));
    }
  }

  lemma {:induction false} ValuesSplit(a: seq<Piece>, b: seq<Piece>)
    ensures PieceValues(a + b) == PieceValues(a) + PieceValues(b)
  {
    if a == [] {
      assert a + b == b;
    } else {
      ValuesSplit(a[1..], b);
      assert (a + b)[0] == a[0] && (a + b)[1..] == a[1..] + b;
    }
  }

  lemma {:induction false} RawsRender(s: string)
    ensures RenderPieces(Raws(s)) == s && PieceValues(Raws(s)) == s
  {
    if s != "" {
      RawsRender(s[1..]);
      assert Raws(s)[1..] == Raws(s[1..]);
    }
  }

  lemma OnePiece(piece: Piece)
    ensures RenderPieces([piece]) == RenderPiece(piece)
    ensures PieceValues([piece]) == [if piece.Raw? then piece.c else EscapeValue(piece.c)]
  {
    assert [piece][1..] == [];
    assert RenderPieces([]) == "" && PieceValues([]) == "";
  }

  lemma Spelled(letter: char, digits: string)
    ensures RenderPieces([Escape(letter)] + Raws(digits)) == ['\\', letter] + digits
    ensures PieceValues([Escape(letter)] + Raws(digits)) == [EscapeValue(letter)] + digits
  {
    RawsRender(digits);
    OnePiece(Escape(letter));
    RenderSplit([Escape(letter)], Raws(digits));
    ValuesSplit([Escape(letter)], Raws(digits));
  }

  lemma ReadingRenders(piece: CsPiece, after: seq<CsPiece>)
    requires ValidCsPiece(piece, after)
    ensures ValidPieces(Reading(piece), '"') && RenderPieces(Reading(piece)) == RenderCsPiece(piece)
    ensures PieceValues(Reading(piece)) ==
            match piece
            case Single(c) => [c]
            case Simple(c) => [EscapeValue(c)]
            case Hex(digits) => ['x'] + digits
            case Unicode4(digits) => ['u'] + digits
            case Unicode8(digits) => ['U'] + digits
  {
    OnePiece(Reading(piece)[0]);
    match piece
    case Single(_) =>
    case Simple(_) =>
    case Hex(digits) => Spelled('x', digits);
    case Unicode4(digits) => Spelled('u', digits);
    case Unicode8(digits) => Spelled('U', digits);
  }

  // The escapes whose meaning the harvester shares with C#.
  predicate Shared(piece: CsPiece)
  {
    piece.Single? || (piece.Simple? && piece.c in {'n', 't', 'r', '0', '"', '\\', '\''})
  }

  // Piece by piece: shared ones agree; of the others, simple escapes give a different
  // byte and numeric ones more bytes than they should.
  lemma ReadingAgrees(piece: CsPiece, after: seq<CsPiece>)
    requires ValidCsPiece(piece, after)
    ensures ValidCsPiece(piece, [])
    ensures PieceValues(Reading(piece)) == CsPieceValue(piece) <==> Shared(piece)
    ensures |PieceValues(Reading(piece))| >= |CsPieceValue(piece)|
    ensures piece.Hex? || piece.Unicode4? || piece.Unicode8? ==> |PieceValues(Reading(piece))| > |CsPieceValue(piece)|
  {
    ReadingRenders(piece, after);
    if piece.Hex? || piece.Unicode4? { HexBound(piece.digits); }
  }

  lemma AppendAgrees(a: string, a': string, b: string, b': string)
    requires |a| >= |a'| && |b| >= |b'|
    ensures a + b == a' + b' <==> a == a' && b == b'
  {
    if a + b == a' + b' {
      assert |a| == |a'| && |b| == |b'|;
      assert a == (a + b)[..|a|] && a' == (a' + b')[..|a'|];
      assert b == (a + b)[|a|..] && b' == (a' + b')[|a'|..];
    }
  }

  lemma {:induction false} ReadingsRender(pieces: seq<CsPiece>)
    requires ValidCs(pieces)
    ensures ValidPieces(Readings(pieces), '"') && RenderPieces(Readings(pieces)) == RenderCs(pieces)
  {
    if pieces != [] {
      ReadingRenders(pieces[0], pieces[1..]);
      ReadingsRender(pieces[1..]);
      RenderSplit(Reading(pieces[0]), Readings(pieces[1..]));
    }
  }

  predicate AllShared(pieces: seq<CsPiece>)
  {
    forall i :: 0 <= i < |pieces| ==> Shared(pieces[i])
  }

  lemma SharedAhead(pieces: seq<CsPiece>)
    requires pieces != []
    ensures AllShared(pieces) <==> Shared(pieces[0]) && AllShared(pieces[1..])
  {
    assert forall i :: 0 < i < |pieces| ==> pieces[i] == pieces[1..][i - 1];
  }

  lemma {:induction false} ReadingsAgree(pieces: seq<CsPiece>)
    requires ValidCs(pieces)
    ensures |PieceValues(Readings(pieces))| >= |CsValue(pieces)|
    ensures PieceValues(Readings(pieces)) == CsValue(pieces) <==> AllShared(pieces)
  {
    if pieces != [] {
      var first, rest := pieces[0], pieces[1..];
      ReadingAgrees(first, rest);
      ReadingsAgree(rest);
      ValuesSplit(Reading(first), Readings(rest));
      AppendAgrees(PieceValues(Reading(first)), CsPieceValue(first), PieceValues(Readings(rest)), CsValue(rest));
      SharedAhead(pieces);
    }
  }

  // For every C# literal, whatever follows: the harvester decodes it to the value C#
  // gives it exactly when each of its escapes is one of \n \t \r \0 \" \\ \'.
  lemma CsValueExactly(pieces: seq<CsPiece>, rest: string)
    requires ValidCs(pieces)
    ensures RegularValue(RenderCs(pieces) + "\"" + rest) == Some(CsValue(pieces)) <==> AllShared(pieces)
  {
    ReadingsRender(pieces);
    ReadingsAgree(pieces);
    RegularComplete(Readings(pieces), rest);
  }

  // -------------------------------------------------------- writing literals

  // How a value is written as a literal body.
  function EscapeRegular(value: string): (pieces: seq<Piece>)
    ensures ValidPieces(pieces, '"')
  {
    if value == "" then []
    else
      var c := value[0];
      var piece :=
        match c
        case '\n' => Escape('n')
        case '\t' => Escape('t')
        case '\r' => Escape('r')
        case '\0' => Escape('0')
        case '"' => Escape(c)
        case '\\' => Escape(c)
        case _ => Raw(c);
      [piece] + EscapeRegular(value[1..])
  }

  function EscapeVerbatim(value: string): (pieces: seq<VerbatimPiece>)
    ensures ValidVerbatim(pieces)
  {
    if value == "" then []
    else [if value[0] == '"' then QuotePair else Verbatim(value[0])] + EscapeVerbatim(value[1..])
  }

  lemma {:induction false} EscapeValues(value: string)
    ensures PieceValues(EscapeRegular(value)) == value
    ensures VerbatimValues(EscapeVerbatim(value)) == value
  {
    if value != "" { EscapeValues(value[1..]); }
  }

  // Every byte string survives being written as a literal and decoded again.
  lemma DecodeInvertsEscape(value: string, rest: string)
    ensures RegularValue(RenderPieces(EscapeRegular(value)) + "\"" + rest) == Some(value)
    ensures !StartsWith(rest, '"') ==>
              VerbatimValue(RenderVerbatim(EscapeVerbatim(value)) + "\"" + rest) == Some(value)
  {
    EscapeValues(value);
    RegularComplete(EscapeRegular(value), rest);
    if !StartsWith(rest, '"') { VerbatimComplete(EscapeVerbatim(value), rest); }
  }

  // ------------------------------------------------ finding the first literal

  function FirstLiteralValue(s: string): Option<string>
  {
    if s == "" then None
    else if s[0] == '@' && StartsWith(s[1..], '"') then VerbatimValue(s[2..])
    else if s[0] == '"' then RegularValue(s[1..])
    else if s[0] == ')' then None
    else FirstLiteralValue(s[1..])
  }

  method ScanFirstStringLiteral(s: string) returns (value: Option<string>)
    ensures value == FirstLiteralValue(s)
  {
    for i := 0 to |s|
      invariant FirstLiteralValue(s) == FirstLiteralValue(s[i..])
    {
      assert s[i..][1..] == s[i + 1..];
      var c := s[i];
      if c == '@' && i + 1 < |s| && s[i + 1] == '"' {
        assert s[i..][2..] == s[i + 2..];
        value := DecodeVerbatim(s[i + 2..]);
        return;
      } else if c == '"' {
        value := DecodeRegular(s[i + 1..]);
        return;
      } else if c == ')' {
        return None;
      }
    }
    value := None;
  }

  // Text that neither opens a literal nor closes the argument list.
  predicate Lead(lead: string)
  {
    forall i :: 0 <= i < |lead| ==> lead[i] != '"' && lead[i] != ')'
  }

  lemma {:induction false} LeadIsSkipped(lead: string, s: string)
    requires Lead(lead) && (lead != "" && lead[|lead| - 1] == '@' ==> !StartsWith(s, '"'))
    ensures FirstLiteralValue(lead + s) == FirstLiteralValue(s)
  {
    if lead == "" {
      assert lead + s == s;
    } else {
      LeadIsSkipped(lead[1..], s);
      assert (lead + s)[1..] == lead[1..] + s;
    }
  }

  // The value harvested from an argument list is that of its first literal, in
  // either form; a list closed before any quote yields nothing.
  lemma FirstLiteralFound(lead: string, value: string, rest: string)
    requires Lead(lead)
    ensures (lead == "" || lead[|lead| - 1] != '@') ==>
              FirstLiteralValue(lead + ("\"" + (RenderPieces(EscapeRegular(value)) + "\"" + rest))) == Some(value)
    ensures !StartsWith(rest, '"') ==>
              FirstLiteralValue(lead + ("@\"" + (RenderVerbatim(EscapeVerbatim(value)) + "\"" + rest))) == Some(value)
    ensures FirstLiteralValue(lead + (")" + rest)) == None
  {
    DecodeInvertsEscape(value, rest);
    var regular, verbatim :=
      RenderPieces(EscapeRegular(value)) + "\"" + rest, RenderVerbatim(EscapeVerbatim(value)) + "\"" + rest;
    if lead == "" || lead[|lead| - 1] != '@' {
      assert ("\"" + regular)[1..] == regular;
      LeadIsSkipped(lead, "\"" + regular);
    }
    assert ("@\"" + verbatim)[2..] == verbatim && ("@\"" + verbatim)[1] == '"';
    LeadIsSkipped(lead, "@\"" + verbatim);
    LeadIsSkipped(lead, ")" + rest);
  }
}
