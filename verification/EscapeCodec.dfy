/** The escaped text form of boot-script bytes: the printer and the parser of the configuration file. */
module EscapeCodec {
  import opened Words

  type Text = seq<byte>

  const CARET: byte := 94
  const BACKSLASH: byte := 92
  const QUOTE: byte := 34
  const QUESTION: byte := 63
  const SPACE: byte := 32
  const DEL: byte := 127

  const LETTER_B: byte := 98
  const LETTER_E: byte := 101
  const LETTER_F: byte := 102
  const LETTER_N: byte := 110
  const LETTER_R: byte := 114
  const LETTER_S: byte := 115
  const LETTER_T: byte := 116
  const LETTER_X: byte := 120

  const BS: byte := 8
  const TAB: byte := 9
  const LF: byte := 10
  const FF: byte := 12
  const CR: byte := 13
  const ESC: byte := 27

  // ----- the parser -----

  function HexValue(c: byte): int {
    if 48 <= c <= 57 then c - 48
    else if 97 <= c <= 102 then c - 97 + 10
    else if 65 <= c <= 70 then c - 65 + 10
    else -1
  }

  predicate IsOctal(c: byte) {
    48 <= c <= 55
  }

  /** The byte a backslash and one of these letters stand for; any other character stands for itself. */
  function Named(c: byte): byte {
    if c == LETTER_R then CR
    else if c == LETTER_N then LF
    else if c == LETTER_T then TAB
    else if c == LETTER_B then BS
    else if c == LETTER_F then FF
    else if c == LETTER_E then ESC
    else if c == LETTER_S then SPACE
    else c
  }

  /** At most `limit` hexadecimal digits read into `v`, and how many there were. */
  function HexRun(s: Text, v: nat, limit: nat): (nat, nat)
    decreases limit
  {
    if limit == 0 || s == [] || HexValue(s[0]) < 0 then (v, 0)
    else
      var rest := HexRun(s[1..], v * 16 + HexValue(s[0]), limit - 1);
      (rest.0, rest.1 + 1)
  }

  function OctalRun(s: Text, v: nat, limit: nat): (nat, nat)
    decreases limit
  {
    if limit == 0 || s == [] || !IsOctal(s[0]) then (v, 0)
    else
      var rest := OctalRun(s[1..], v * 8 + (s[0] - 48), limit - 1);
      (rest.0, rest.1 + 1)
  }

  /** The first byte a text stands for, and how many characters it takes. */
  function Head(s: Text): (byte, nat)
    requires s != []
  {
    if s[0] == CARET && |s| > 1 then (if s[1] == QUESTION then DEL else s[1] % 32, 2)
    else if s[0] == BACKSLASH && |s| > 1 then
      if s[1] == LETTER_X then
        var run := HexRun(s[2..], 0, 2);
        (run.0 % 256, 2 + run.1)
      else if IsOctal(s[1]) then
        var run := OctalRun(s[2..], s[1] - 48, 2);
        (run.0 % 256, 2 + run.1)
      else (Named(s[1]), 2)
    else (s[0], 1)
  }

  lemma HexRunCount(s: Text, v: nat, limit: nat)
    ensures HexRun(s, v, limit).1 <= |s|
    decreases limit
  {
  }

  lemma OctalRunCount(s: Text, v: nat, limit: nat)
    ensures OctalRun(s, v, limit).1 <= |s|
    decreases limit
  {
  }

  lemma HeadCount(s: Text)
    requires s != []
    ensures 1 <= Head(s).1 <= |s|
  {
    if |s| > 1 {
      HexRunCount(s[2..], 0, 2);
      if IsOctal(s[1]) {
        OctalRunCount(s[2..], s[1] - 48, 2);
      }
    }
  }

  /** Everything a text stands for. */
  function Decoded(s: Text): seq<byte>
    decreases |s|
  {
    if s == [] then []
    else
      HeadCount(s);
      [Head(s).0] + Decoded(s[Head(s).1..])
  }

  /** Fills the buffer with what the text stands for, as far as it fits. */
  method Decode(s: Text, out: array<byte>, outMax: nat) returns (n: nat)
    requires outMax <= out.Length
    modifies out
    ensures n == Min(|Decoded(s)|, outMax)
    ensures out[..n] == Decoded(s)[..n]
    ensures forall k :: n <= k < out.Length ==> out[k] == old(out[k])
  {
    ghost var all, filled: seq<byte>, rest := Decoded(s), [], Decoded(s);
    n := 0;
    var i := 0;
    assert s[0..] == s;
    while i < |s| && n < outMax
      invariant i <= |s| && n <= outMax
      invariant rest == Decoded(s[i..]) && all == filled + rest
      invariant out[..n] == filled
      invariant forall k :: n <= k < out.Length ==> out[k] == old(out[k])
    {
      var b, next := DecodeOne(s, i);
      DecodedAfter(s, i, b, next);
      MoveOne(all, filled, b, rest, Decoded(s[next..]));
      filled, rest := filled + [b], Decoded(s[next..]);
      out[n] := b;
      n, i := n + 1, next;
    }
    Filled(s, i, filled, rest, outMax);
  }

  lemma MoveOne(all: seq<byte>, filled: seq<byte>, b: byte, rest: seq<byte>, after: seq<byte>)
    requires all == filled + rest && rest == [b] + after
    ensures all == (filled + [b]) + after
  {
  }

  lemma Filled(s: Text, i: nat, filled: seq<byte>, rest: seq<byte>, outMax: nat)
    requires i <= |s| && rest == Decoded(s[i..]) && Decoded(s) == filled + rest
    requires i == |s| || |filled| == outMax
    requires |filled| <= outMax
    ensures |filled| == Min(|Decoded(s)|, outMax) && filled == Decoded(s)[..|filled|]
  {
    if i == |s| {
      assert s[i..] == [];
    }
  }

  lemma DecodedAfter(s: Text, i: nat, b: byte, next: nat)
    requires i < next <= |s| && (b, next - i) == Head(s[i..])
    ensures Decoded(s[i..]) == [b] + Decoded(s[next..])
  {
    assert s[i..][next - i..] == s[next..];
  }

  /** One element of the text at `start`: its byte and the position after it. */
  method DecodeOne(s: Text, start: nat) returns (b: byte, next: nat)
    requires start < |s|
    ensures (b, next - start) == Head(s[start..]) && start < next <= |s|
  {
    ghost var tail := s[start..];
    HeadCount(tail);
    var i := start;
    b := s[i];
    if s[i] == CARET && i + 1 < |s| {
      i := i + 1;
      b := if s[i] == QUESTION then DEL else s[i] % 32;
    } else if s[i] == BACKSLASH && i + 1 < |s| {
      i := i + 1;
      var c := s[i];
      assert tail[2..] == s[i + 1..];
      if c == LETTER_X {
        var v, last := HexDigits(s, i);
        b, i := v % 256, last;
      } else if IsOctal(c) {
        var v, last := OctalDigits(s, i, c - 48);
        b, i := v % 256, last;
      } else {
        b := Named(c);
      }
    }
    next := i + 1;
  }

  method HexDigits(s: Text, start: nat) returns (v: nat, last: nat)
    requires start < |s|
    ensures start <= last < |s| && (v, last - start) == HexRun(s[start + 1..], 0, 2)
  {
    var digits := 0;
    v, last := 0, start;
    while last + 1 < |s| && digits < 2
      invariant start <= last < |s| && digits == last - start && digits <= 2
      invariant HexRun(s[start + 1..], 0, 2).0 == HexRun(s[last + 1..], v, 2 - digits).0
      invariant HexRun(s[start + 1..], 0, 2).1 == HexRun(s[last + 1..], v, 2 - digits).1 + digits
    {
      var h := HexValue(s[last + 1]);
      if h < 0 {
        break;
      }
      assert s[last + 1..][1..] == s[last + 2..];
      v := v * 16 + h;
      last := last + 1;
      digits := digits + 1;
    }
  }

  method OctalDigits(s: Text, start: nat, first: nat) returns (v: nat, last: nat)
    requires start < |s|
    ensures start <= last < |s| && (v, last - start) == OctalRun(s[start + 1..], first, 2)
  {
    var digits := 1;
    v, last := first, start;
    while last + 1 < |s| && digits < 3 && IsOctal(s[last + 1])
      invariant start <= last < |s| && digits == 1 + last - start && digits <= 3
      invariant OctalRun(s[start + 1..], first, 2).0 == OctalRun(s[last + 1..], v, 3 - digits).0
      invariant OctalRun(s[start + 1..], first, 2).1 == OctalRun(s[last + 1..], v, 3 - digits).1 + (digits - 1)
    {
      assert s[last + 1..][1..] == s[last + 2..];
      v := v * 8 + (s[last + 1] - 48);
      last := last + 1;
      digits := digits + 1;
    }
  }

  // ----- what the escapes stand for -----

  lemma OneElement(first: Text, rest: Text, b: byte)
    requires first != [] && Head(first + rest) == (b, |first|)
    ensures Decoded(first + rest) == [b] + Decoded(rest)
  {
    assert (first + rest)[|first|..] == rest;
  }

  /** `^` and a character stand for its control code, and `^?` for DEL; a last `^` or backslash for itself. */
  lemma Carets(c: byte, rest: Text)
    ensures Decoded([94, c] + rest) == [if c == 63 then 127 else c % 32] + Decoded(rest)
    ensures Decoded([94]) == [94] && Decoded([92]) == [92]
  {
    var s := [94, c] + rest;
    assert s[0] == 94 && s[1] == c;
    OneElement([94, c], rest, if c == 63 then 127 else c % 32);
    assert [94] + [] == [94] && [92] + [] == [92] && Decoded([]) == [];
    OneElement([94], [], 94);
    OneElement([92], [], 92);
  }

  /** `\r`, `\n`, `\t`, `\b`, `\f`, `\e` and `\s`; any other character that begins no number stands for itself. */
  lemma Letters(c: byte, rest: Text)
    requires c != 120 && !(48 <= c <= 55)
    ensures Decoded([92, c] + rest) ==
            [if c == 114 then 13 else if c == 110 then 10 else if c == 116 then 9 else if c == 98 then 8
             else if c == 102 then 12 else if c == 101 then 27 else if c == 115 then 32 else c] + Decoded(rest)
  {
    var s := [92, c] + rest;
    assert s[0] == 92 && s[1] == c;
    OneElement([92, c], rest, Named(c));
  }

  /** A hexadecimal digit, in either case. */
  function HexDigit(v: nat, upper: bool): byte
    requires v < 16
  {
    if v < 10 then 48 + v else if upper then 55 + v else 87 + v
  }

  lemma DigitValue(v: nat, upper: bool)
    requires v < 16
    ensures HexValue(HexDigit(v, upper)) == v
  {
  }

  /** There are no other digits. */
  lemma NoOtherDigit(c: byte)
    ensures HexValue(c) >= 0 <==> 48 <= c <= 57 || 65 <= c <= 70 || 97 <= c <= 102
    ensures HexValue(c) >= 0 ==>
              HexValue(c) < 16 && (c == HexDigit(HexValue(c), true) || c == HexDigit(HexValue(c), false))
  {
  }

  /** `\x` and two digits are a byte. */
  lemma HexPair(t: Text, c: byte, upper: bool, lower: bool, rest: Text)
    requires t == [92, 120, HexDigit(c / 16, upper), HexDigit(c % 16, lower)]
    ensures Decoded(t + rest) == [c] + Decoded(rest)
  {
    DigitValue(c / 16, upper);
    DigitValue(c % 16, lower);
    HexTwo(HexDigit(c / 16, upper), HexDigit(c % 16, lower), rest, c);
    OneElement(t, rest, c);
  }

  /** With one digit, or none, what follows is left alone. */
  lemma HexSingle(t: Text, v: byte, upper: bool, rest: Text)
    requires v < 16 && t == [92, 120, HexDigit(v, upper)] && (rest == [] || HexValue(rest[0]) < 0)
    ensures Decoded(t + rest) == [v] + Decoded(rest)
  {
    DigitValue(v, upper);
    HexOne(HexDigit(v, upper), rest, v);
    OneElement(t, rest, v);
  }

  lemma HexNone(t: Text, rest: Text)
    requires t == [92, 120] && (rest == [] || HexValue(rest[0]) < 0)
    ensures Decoded(t + rest) == [0] + Decoded(rest)
  {
    assert (t + rest)[2..] == rest;
    OneElement(t, rest, 0);
  }

  lemma HexTwo(a: byte, b: byte, rest: Text, v: byte)
    requires HexValue(a) >= 0 && HexValue(b) >= 0 && v == HexValue(a) * 16 + HexValue(b)
    ensures Head([92, 120, a, b] + rest) == (v, 4)
  {
    var s := [92, 120, a, b] + rest;
    var t := s[2..];
    assert t[0] == a && t[1..][0] == b;
    assert HexRun(t[1..], HexValue(a), 1) == (HexValue(a) * 16 + HexValue(b), 1);
    assert HexRun(t, 0, 2) == (HexValue(a) * 16 + HexValue(b), 2);
  }

  lemma HexOne(b: byte, rest: Text, v: byte)
    requires HexValue(b) == v && (rest == [] || HexValue(rest[0]) < 0)
    ensures Head([92, 120, b] + rest) == (v, 3)
  {
    var s := [92, 120, b] + rest;
    var t := s[2..];
    assert t[0] == b && t[1..] == rest;
    assert HexRun(t, 0, 2) == (HexRun(rest, HexValue(b), 1).0, HexRun(rest, HexValue(b), 1).1 + 1);
  }

  /** A backslash and three octal digits. */
  lemma OctalTriple(t: Text, a: byte, b: byte, c: byte, rest: Text)
    requires t == [92, a, b, c] && 48 <= a <= 55 && 48 <= b <= 55 && 48 <= c <= 55
    ensures Decoded(t + rest) == [((a - 48) * 64 + (b - 48) * 8 + (c - 48)) as int % 256] + Decoded(rest)
  {
    TripleHead(a, b, c, rest, ((a - 48) * 64 + (b - 48) * 8 + (c - 48)) as int % 256);
    OneElement(t, rest, ((a - 48) * 64 + (b - 48) * 8 + (c - 48)) as int % 256);
  }

  lemma TripleHead(a: byte, b: byte, c: byte, rest: Text, v: byte)
    requires IsOctal(a) && IsOctal(b) && IsOctal(c)
    requires v as int == ((a - 48) * 64 + (b - 48) * 8 + (c - 48)) as int % 256
    ensures Head([92, a, b, c] + rest) == (v, 4)
  {
    var t := [b, c] + rest;
    assert [92, a, b, c] + rest == [92, a] + t;
    HeadOfOctal(a, t);
    OctalDigit(t, a - 48, 2);
    OctalDigit(t[1..], (a - 48) * 8 + (b - 48), 1);
  }

  lemma OctalStops(rest: Text, v: nat, limit: nat)
    requires rest == [] || !IsOctal(rest[0])
    ensures OctalRun(rest, v, limit) == (v, 0)
  {
  }

  lemma OctalDigit(t: Text, v: nat, limit: nat)
    requires limit > 0 && t != [] && IsOctal(t[0])
    ensures var run := OctalRun(t[1..], v * 8 + (t[0] - 48), limit - 1); OctalRun(t, v, limit) == (run.0, run.1 + 1)
  {
  }

  lemma HeadOfOctal(a: byte, t: Text)
    requires IsOctal(a)
    ensures var run := OctalRun(t, a - 48, 2); Head([92, a] + t) == (run.0 % 256, 2 + run.1)
  {
    var s := [92, a] + t;
    assert s[1] == a && s[2..] == t;
  }

  lemma PairHead(a: byte, b: byte, rest: Text, v: byte)
    requires IsOctal(a) && IsOctal(b) && (rest == [] || !IsOctal(rest[0])) && v as int == (a - 48) * 8 + (b - 48)
    ensures Head([92, a, b] + rest) == (v, 3)
  {
    assert [92, a, b] + rest == [92, a] + ([b] + rest);
    HeadOfOctal(a, [b] + rest);
    OctalDigit([b] + rest, a - 48, 2);
    assert ([b] + rest)[1..] == rest;
    OctalStops(rest, v, 1);
  }

  lemma SingleHead(a: byte, rest: Text)
    requires IsOctal(a) && (rest == [] || !IsOctal(rest[0]))
    ensures Head([92, a] + rest) == (a - 48, 2)
  {
    HeadOfOctal(a, rest);
    OctalStops(rest, a - 48, 2);
  }

  /** Fewer than three, before something else. */
  lemma OctalPair(t: Text, a: byte, b: byte, rest: Text)
    requires t == [92, a, b] && 48 <= a <= 55 && 48 <= b <= 55 && (rest == [] || !(48 <= rest[0] <= 55))
    ensures Decoded(t + rest) == [(a - 48) * 8 + (b - 48)] + Decoded(rest)
  {
    PairHead(a, b, rest, (a - 48) * 8 + (b - 48));
    OneElement(t, rest, (a - 48) * 8 + (b - 48));
  }

  lemma OctalSingle(t: Text, a: byte, rest: Text)
    requires t == [92, a] && 48 <= a <= 55 && (rest == [] || !(48 <= rest[0] <= 55))
    ensures Decoded(t + rest) == [a - 48] + Decoded(rest)
  {
    SingleHead(a, rest);
    OneElement(t, rest, a - 48);
  }

  // ----- the printer -----

  function Octal(c: byte): Text {
    [BACKSLASH, 48 + c / 64, 48 + c / 8 % 8, 48 + c % 8]
  }

  /** The text of one byte; a space at either edge is printed in octal. */
  function EscapedByte(c: byte, edge: bool): (t: Text)
    ensures t != []
  {
    if c == CR then [BACKSLASH, LETTER_R]
    else if c == LF then [BACKSLASH, LETTER_N]
    else if c == TAB then [BACKSLASH, LETTER_T]
    else if c == BS then [BACKSLASH, LETTER_B]
    else if c == ESC then [BACKSLASH, LETTER_E]
    else if c == BACKSLASH then [BACKSLASH, BACKSLASH]
    else if c == QUOTE then [BACKSLASH, QUOTE]
    else if c == SPACE then (if edge then [BACKSLASH, 48, 52, 48] else [SPACE])
    else if 32 <= c < 127 then [c]
    else Octal(c)
  }

  /** The text is printable, one character where it can be, two for what has a name, and four otherwise. */
  lemma PrintedForms(c: byte, edge: bool)
    ensures var t := EscapedByte(c, edge);
            && (forall i :: 0 <= i < |t| ==> 32 <= t[i] < 127)
            && (|t| == 1 <==> 32 <= c < 127 && c != 92 && c != 34 && !(c == 32 && edge))
            && (|t| == 2 <==> c == 13 || c == 10 || c == 9 || c == 8 || c == 27 || c == 92 || c == 34)
            && (|t| == 1 || |t| == 2 || |t| == 4) && (|t| > 1 ==> t[0] == 92)
  {
  }

  predicate Edge(bytes: seq<byte>, i: nat) {
    i == 0 || i + 1 == |bytes|
  }

  /** The text of the bytes from `i` on. */
  function EscapedFrom(bytes: seq<byte>, i: nat): Text
    requires i <= |bytes|
    decreases |bytes| - i
  {
    if i == |bytes| then [] else EscapedByte(bytes[i], Edge(bytes, i)) + EscapedFrom(bytes, i + 1)
  }

  method Escape(bytes: seq<byte>) returns (text: Text)
    ensures text == EscapedFrom(bytes, 0)
  {
    text := [];
    ghost var all, rest := EscapedFrom(bytes, 0), EscapedFrom(bytes, 0);
    for i := 0 to |bytes|
      invariant rest == EscapedFrom(bytes, i) && all == text + rest
    {
      var piece := EscapeOne(bytes[i], i == 0 || i + 1 == |bytes|);
      MovePiece(all, text, piece, rest, EscapedFrom(bytes, i + 1));
      text := text + piece;
      rest := EscapedFrom(bytes, i + 1);
    }
  }

  lemma MovePiece(all: Text, text: Text, piece: Text, rest: Text, after: Text)
    requires all == text + rest && rest == piece + after
    ensures all == (text + piece) + after
  {
  }

  method EscapeOne(c: byte, edge: bool) returns (piece: Text)
    ensures piece == EscapedByte(c, edge)
  {
    if c == CR {
      piece := [BACKSLASH, LETTER_R];
    } else if c == LF {
      piece := [BACKSLASH, LETTER_N];
    } else if c == TAB {
      piece := [BACKSLASH, LETTER_T];
    } else if c == BS {
      piece := [BACKSLASH, LETTER_B];
    } else if c == ESC {
      piece := [BACKSLASH, LETTER_E];
    } else if c == BACKSLASH {
      piece := [BACKSLASH, BACKSLASH];
    } else if c == QUOTE {
      piece := [BACKSLASH, QUOTE];
    } else if c == SPACE {
      piece := if edge then [BACKSLASH, 48, 52, 48] else [SPACE];
    } else if 32 <= c < 127 {
      piece := [c];
    } else {
      piece := [BACKSLASH, 48 + c / 64, 48 + c / 8 % 8, 48 + c % 8];
    }
  }

  // ----- round trip -----

  /** Three octal digits are never read further, whatever follows. */
  lemma OctalHead(c: byte, rest: Text)
    ensures Head(Octal(c) + rest) == (c, 4)
  {
    OctalValue(c);
    TripleHead(Octal(c)[1], Octal(c)[2], Octal(c)[3], rest, c);
  }

  lemma OctalValue(c: byte)
    ensures var t := Octal(c);
            && t == [92, t[1], t[2], t[3]] && IsOctal(t[1]) && IsOctal(t[2]) && IsOctal(t[3])
            && (t[1] - 48) * 64 + (t[2] - 48) * 8 + (t[3] - 48) == c
  {
    assert c / 8 == c / 64 * 8 + c / 8 % 8;
  }

  /** A printed byte is read back alone, unless it is a caret with something after it. */
  lemma HeadOfEscaped(c: byte, edge: bool, rest: Text)
    requires c != CARET || rest == []
    ensures Head(EscapedByte(c, edge) + rest) == (c, |EscapedByte(c, edge)|)
  {
    if c == SPACE && edge {
      assert EscapedByte(c, edge) == Octal(SPACE);
      OctalHead(SPACE, rest);
    } else if (c < 32 || c >= 127) && c !in {CR, LF, TAB, BS, ESC} {
      OctalHead(c, rest);
    } else {
      var s := EscapedByte(c, edge) + rest;
      assert s[0] == EscapedByte(c, edge)[0];
      if |EscapedByte(c, edge)| == 2 {
        assert s[1] == EscapedByte(c, edge)[1];
      }
    }
  }

  ghost predicate CaretFree(bytes: seq<byte>, n: nat)
    requires n <= |bytes|
  {
    forall i :: 0 <= i < n ==> bytes[i] != CARET
  }

  /** Where decoding the text of the bytes from each position on leads. */
  ghost predicate Chain(bytes: seq<byte>, decoded: seq<seq<byte>>, n: nat) {
    n <= |bytes| && |decoded| == |bytes| + 1 && forall i :: 0 <= i < n ==> decoded[i] == [bytes[i]] + decoded[i + 1]
  }

  lemma {:induction false} ChainPrefix(bytes: seq<byte>, decoded: seq<seq<byte>>, n: nat)
    requires Chain(bytes, decoded, n)
    ensures decoded[0] == bytes[..n] + decoded[n]
    decreases n
  {
    if n > 0 {
      ChainPrefix(bytes, decoded, n - 1);
      assert bytes[..n] == bytes[..n - 1] + [bytes[n - 1]];
    }
  }

  lemma DecodedPrefix(bytes: seq<byte>, n: nat)
    requires n <= |bytes|
    requires forall i :: 0 <= i < n ==> bytes[i] != CARET || i + 1 == |bytes|
    ensures Decoded(EscapedFrom(bytes, 0)) == bytes[..n] + Decoded(EscapedFrom(bytes, n))
  {
    var decoded := seq(|bytes| + 1, i requires 0 <= i <= |bytes| => Decoded(EscapedFrom(bytes, i)));
    forall i | 0 <= i < n
      ensures decoded[i] == [bytes[i]] + decoded[i + 1]
    {
      DecodedStep(bytes, i);
    }
    ChainPrefix(bytes, decoded, n);
  }

  lemma DecodedStep(bytes: seq<byte>, i: nat)
    requires i < |bytes| && (bytes[i] != CARET || i + 1 == |bytes|)
    ensures Decoded(EscapedFrom(bytes, i)) == [bytes[i]] + Decoded(EscapedFrom(bytes, i + 1))
  {
    var first, rest := EscapedByte(bytes[i], Edge(bytes, i)), EscapedFrom(bytes, i + 1);
    HeadOfEscaped(bytes[i], Edge(bytes, i), rest);
    assert (first + rest)[|first|..] == rest;
  }

  /** A caret followed by anything is read as a control character, which is never a caret. */
  lemma CaretLost(bytes: seq<byte>, i: nat)
    requires i + 1 < |bytes| && bytes[i] == CARET
    ensures var d := Decoded(EscapedFrom(bytes, i)); d != [] && d[0] != CARET
  {
    var rest := EscapedFrom(bytes, i + 1);
    assert EscapedFrom(bytes, i) == [CARET] + rest;
    assert rest != [];
  }

  /** Printing and parsing give the bytes back exactly when no caret stands before the last byte. */
  lemma RoundTrip(bytes: seq<byte>)
    ensures Decoded(EscapedFrom(bytes, 0)) == bytes <==>
            forall i :: 0 <= i < |bytes| - 1 ==> bytes[i] != CARET
  {
    if i :| 0 <= i < |bytes| - 1 && bytes[i] == CARET {
      var k := FirstCaret(bytes, i);
      DecodedPrefix(bytes, k);
      CaretLost(bytes, k);
      DiffersAt(Decoded(EscapedFrom(bytes, 0)), bytes, k, Decoded(EscapedFrom(bytes, k)));
    } else {
      DecodedPrefix(bytes, |bytes|);
      assert bytes[..|bytes|] == bytes;
    }
  }

  lemma DiffersAt(decoded: seq<byte>, bytes: seq<byte>, k: nat, rest: seq<byte>)
    requires k < |bytes| && decoded == bytes[..k] + rest && rest != [] && rest[0] != bytes[k]
    ensures decoded != bytes
  {
    assert decoded[k] == rest[0];
  }

  lemma FirstCaret(bytes: seq<byte>, at: nat) returns (k: nat)
    requires at < |bytes| && bytes[at] == CARET
    ensures k <= at && bytes[k] == CARET && CaretFree(bytes, k)
  {
    k := 0;
    while bytes[k] != CARET
      invariant k <= at && CaretFree(bytes, k)
      decreases at - k
    {
      k := k + 1;
    }
  }

  /** The text neither begins nor ends with white space, so trimming a configuration value cannot touch it. */
  lemma NoOuterSpace(bytes: seq<byte>)
    requires bytes != []
    ensures var t := EscapedFrom(bytes, 0); t != [] && t[0] > SPACE && t[|t| - 1] > SPACE
  {
    var first := EscapedByte(bytes[0], true);
    assert EscapedFrom(bytes, 0)[0] == first[0];
    LastCharacter(bytes, 0);
  }

  lemma {:induction false} LastCharacter(bytes: seq<byte>, i: nat)
    requires i < |bytes|
    ensures var t := EscapedFrom(bytes, i); t != [] && t[|t| - 1] > SPACE
    decreases |bytes| - i
  {
    var first, rest := EscapedByte(bytes[i], Edge(bytes, i)), EscapedFrom(bytes, i + 1);
    if i + 1 < |bytes| {
      LastCharacter(bytes, i + 1);
      assert (first + rest)[|first + rest| - 1] == rest[|rest| - 1];
    } else {
      assert first + rest == first;
    }
  }
}
