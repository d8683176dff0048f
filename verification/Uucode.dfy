/** The traditional uuencode format: encode and uu_decode. */
module Uucode {
  import opened Bytes
  import Base64
  import opened Base64Stream

  const CHUNK := 45

  // ----- the format -----

  /** How a value below 64 is printed: a backquote stands for zero. */
  function Printed(v: nat): (c: char)
    requires v < 64
    ensures 0x21 <= c as int <= 0x60
  {
    if v == 0 then '`' else (v + 32) as char
  }

  const SIGNS := "`!\"#$%&'()*+,-./"
  const DIGITS := "0123456789:;<=>?"
  const LETTERS := "@ABCDEFGHIJKLMNO"
  const REST := "PQRSTUVWXYZ[\\]^_"

  /** The printed values in order. */
  const ALPHABET := SIGNS + DIGITS + LETTERS + REST

  lemma PrintedIsLetter(v: nat)
    requires v < 64
    ensures |ALPHABET| == 64 && Printed(v) == ALPHABET[v]
  {
    if v < 16 {
      assert SIGNS[v] == Printed(v);
    } else if v < 32 {
      assert DIGITS[v - 16] == Printed(v);
    } else if v < 48 {
      assert LETTERS[v - 32] == Printed(v);
    } else {
      assert REST[v - 48] == Printed(v);
    }
  }

  /** Three bytes as four printed sextets. */
  function Quad(b0: byte, b1: byte, b2: byte): (q: string)
    ensures |q| == 4
  {
    [Printed(b0 / 4), Printed(b0 % 4 * 16 + b1 / 16), Printed(b1 % 16 * 4 + b2 / 64), Printed(b2 % 64)]
  }

  /** They are the base-64 digits of the number that the bytes make. */
  lemma QuadIsNumber(b0: byte, b1: byte, b2: byte)
    ensures var n := Number([b0, b1, b2]);
            && |ALPHABET| == 64
            && Quad(b0, b1, b2)[0] == ALPHABET[n / 262144 % 64] && Quad(b0, b1, b2)[1] == ALPHABET[n / 4096 % 64]
            && Quad(b0, b1, b2)[2] == ALPHABET[n / 64 % 64] && Quad(b0, b1, b2)[3] == ALPHABET[n % 64]
  {
    hide ALPHABET, Printed;
    Base64.DigitsOfNumber([b0, b1, b2], b0, b1, b2);
    PrintedIsLetter(b0 / 4);
    PrintedIsLetter(b0 % 4 * 16 + b1 / 16);
    PrintedIsLetter(b1 % 16 * 4 + b2 / 64);
    PrintedIsLetter(b2 % 64);
  }

  function Number(x: seq<byte>): (n: nat)
    requires |x| == 3
  {
    Base64.GroupNumber(x)
  }

  /** All bytes of a line, zeros completing the last group. */
  function Quads(x: seq<byte>): string {
    if x == [] then []
    else if |x| <= 3 then Quad(x[0], if |x| > 1 then x[1] else 0, if |x| > 2 then x[2] else 0)
    else Quad(x[0], x[1], x[2]) + Quads(x[3..])
  }

  /** A data line: its length, its groups. */
  function Line(x: seq<byte>): string
    requires |x| <= CHUNK
  {
    [Printed(|x|)] + Quads(x) + "\n"
  }

  function Body(x: seq<byte>): string {
    if x == [] then []
    else if |x| <= CHUNK then Line(x)
    else Line(x[..CHUNK]) + Body(x[CHUNK..])
  }

  /** Forty-five bytes make a line of 62 characters that starts with an M; what is left makes the next
      lines. */
  lemma FullLines(x: seq<byte>)
    requires |x| > 45
    ensures Body(x) == Line(x[..45]) + Body(x[45..]) && |Line(x[..45])| == 62 && Line(x[..45])[0] == 'M'
  {
    hide Quads;
    QuadsLength(x[..45]);
  }

  /** A shorter last line. */
  lemma LastLine(x: seq<byte>)
    requires 0 < |x| <= 45
    ensures Body(x) == Line(x) && |Line(x)| == 2 + (|x| + 2) / 3 * 4 && Line(x)[0] as int == |x| + 32
  {
    hide Quads;
    QuadsLength(x);
  }

  lemma {:induction false} QuadsLength(x: seq<byte>)
    ensures |Quads(x)| == (|x| + 2) / 3 * 4
  {
    hide Quad;
    if |x| > 3 {
      QuadsLength(x[3..]);
    }
  }

  const TERMINATOR: string := "`\nend\n"

  // ----- characters as the C code computes with them -----

  /** ENC on an int: `c & 077` of a negative number is its low six bits. */
  function Enc(c: int): (r: int)
    ensures 0x20 <= r <= 0x60
  {
    if c != 0 then c % 64 + 32 else 96
  }

  /** DEC. */
  function Dec(c: int): (v: nat)
    ensures v < 64
  {
    (c - 32) % 64
  }

  /** IS_DEC. */
  predicate IsDec(c: int) {
    0 <= c - 32 <= 64
  }

  /** From a space to a backquote, both of which stand for zero, although the message about characters out
      of range names the one behind the space as the first. */
  lemma InRangeExactly(c: int)
    ensures IsDec(c) <==> ' ' as int <= c <= '`' as int
    ensures IsDec(c) && Dec(c) == 0 <==> c == ' ' as int || c == '`' as int
  {
  }

  /** A stored character as the `char` the platform gives: signed or not. */
  function Plain(b: nat, signed: bool): int {
    if signed && b >= 128 then b - 256 else b
  }

  lemma EncPrints(v: nat)
    requires v < 64
    ensures Enc(v) == Printed(v) as int
  {
  }

  lemma FirstPrints(b: byte, signed: bool)
    ensures Enc(Plain(b, signed) / 4) == Printed(b / 4) as int
  {
  }

  lemma HighBits(b: byte, signed: bool)
    ensures Plain(b, signed) * 16 % 64 == b % 4 * 16 && Plain(b, signed) * 4 % 64 == b % 16 * 4
  {
    var p := Plain(b, signed);
    assert p == b || p == b - 256;
    var d := if p == b then 0 else 256;
    Residue(p * 16, b / 4 - d / 4, b % 4 * 16);
    Residue(p * 4, b / 16 - d / 16, b % 16 * 4);
  }

  lemma Residue(n: int, q: int, r: int)
    requires n == 64 * q + r && 0 <= r < 64
    ensures n % 64 == r
  {
  }

  lemma LowBits(b: byte, signed: bool)
    ensures Plain(b, signed) / 16 % 16 == b / 16 && Plain(b, signed) / 64 % 4 == b / 64
    ensures Plain(b, signed) % 64 == b % 64
  {
  }

  /** The four characters written for one group.  `>>` on a negative char is an arithmetic shift,
      so Euclidean division by the power of two; the masks keep the low bits. */
  method EncodeGroup(b0: byte, b1: byte, b2: byte, signed: bool) returns (q: string)
    ensures q == Quad(b0, b1, b2)
  {
    hide Enc, Plain, Printed;
    var p0, p1, p2 := Plain(b0, signed), Plain(b1, signed), Plain(b2, signed);
    FirstPrints(b0, signed);
    HighBits(b0, signed);
    HighBits(b1, signed);
    LowBits(b1, signed);
    LowBits(b2, signed);
    var c1, c2, c3 := p0 * 16 % 64 + p1 / 16 % 16, p1 * 4 % 64 + p2 / 64 % 4, p2 % 64;
    assert c1 == b0 % 4 * 16 + b1 / 16 && c2 == b1 % 16 * 4 + b2 / 64 && c3 == b2 % 64;
    EncPrints(c1);
    EncPrints(c2);
    EncPrints(c3);
    q := [Enc(p0 / 4) as char, Enc(c1) as char, Enc(c2) as char, Enc(c3) as char];
  }

  /** The loop over one chunk of `n` bytes in the buffer; what was left in the buffer behind them
      does not show. */
  method EncodeChunk(buf: array<byte>, n: nat, signed: bool) returns (line: string)
    requires buf.Length == 80 && 0 < n <= CHUNK
    modifies buf
    ensures line == Line(old(buf[..n]))
  {
    hide Quads, Quad, Enc, Printed;
    EncPrints(n);
    line := [Enc(n) as char];
    var left, p := n, 0;
    ghost var x := buf[..n];
    ghost var head := line;
    assert x[0..] == x;
    while left > 0
      invariant p <= n ==> left == n - p
      invariant left > 0 ==> p < n && buf[p..n] == x[p..]
      invariant line + (if left > 0 then Quads(x[p..]) else []) == head + Quads(x)
    {
      ghost var rest := x[p..];
      assert buf[p..n][0] == buf[p] && (left > 1 ==> buf[p..n][1] == buf[p + 1]) && (left > 2 ==> buf[p..n][2] == buf[p + 2]);
      if left < 3 {
        buf[p + 2] := 0;
        if left < 2 {
          buf[p + 1] := 0;
        }
      }
      QuadsStep(rest);
      var q := EncodeGroup(buf[p], buf[p + 1], buf[p + 2], signed);
      line := line + q;
      if left > 3 {
        assert rest[3..] == x[p + 3..] && buf[p + 3..n] == buf[p..n][3..];
      }
      left, p := if left > 3 then left - 3 else 0, p + 3;
    }
    line := line + "\n";
  }

  lemma QuadsStep(x: seq<byte>)
    requires x != []
    ensures |x| <= 3 ==> Quads(x) == Quad(x[0], if |x| > 1 then x[1] else 0, if |x| > 2 then x[2] else 0)
    ensures |x| > 3 ==> Quads(x) == Quad(x[0], x[1], x[2]) + Quads(x[3..])
  {
  }

  /** encode behind the "begin" line. */
  method EncodeText(x: seq<byte>, signed: bool) returns (text: string)
    ensures text == Body(x) + TERMINATOR
  {
    hide Body, Line;
    text := [];
    var at, buf := 0, new byte[80](_ => 0);
    assert x[0..] == x;
    while at < |x|
      invariant 0 <= at <= |x| && text + Body(x[at..]) == Body(x)
    {
      var n := if |x| - at < CHUNK then |x| - at else CHUNK;
      Store(buf, 0, x[at..at + n]);
      assert buf[..n] == x[at..at + n];
      var line := EncodeChunk(buf, n, signed);
      BodyStep(x[at..], n);
      assert x[at..][..n] == x[at..at + n] && x[at..][n..] == x[at + n..];
      text := text + line;
      at := at + n;
    }
    assert Body(x[at..]) == [] by { BodyEnds(x[at..]); }
    text := text + TERMINATOR;
  }

  lemma BodyStep(x: seq<byte>, n: nat)
    requires x != [] && n == if |x| < CHUNK then |x| else CHUNK
    ensures Body(x) == Line(x[..n]) + Body(x[n..])
  {
    hide Line;
    if |x| <= CHUNK {
      assert x[..n] == x && x[n..] == [];
    }
  }

  lemma BodyEnds(x: seq<byte>)
    requires x == []
    ensures Body(x) == []
  {
  }

  // ----- decoding -----

  /** A character of the line buffer; fgets ends the line with a NUL. */
  function At(line: string, p: nat): int {
    if p < |line| then line[p] as int else 0
  }

  function Sextet(line: string, p: nat, signed: bool): nat {
    Dec(Plain(At(line, p), signed))
  }

  /** `count` characters from `p` are in range. */
  predicate InRange(line: string, p: nat, count: nat, signed: bool) {
    forall k :: p <= k < p + count ==> IsDec(Plain(At(line, k), signed))
  }

  function Byte0(line: string, p: nat, signed: bool): byte {
    Sextet(line, p, signed) * 4 + Sextet(line, p + 1, signed) / 16
  }

  function Byte1(line: string, p: nat, signed: bool): byte {
    HighBits16(Sextet(line, p + 1, signed)) + Sextet(line, p + 2, signed) / 4
  }

  function Byte2(line: string, p: nat, signed: bool): byte {
    HighBits64(Sextet(line, p + 2, signed)) + Sextet(line, p + 3, signed)
  }

  /** `(v << 4) & 0xff`. */
  function HighBits16(v: nat): (r: nat)
    ensures r <= 240
  {
    v % 16 * 16
  }

  /** `(v << 6) & 0xff`. */
  function HighBits64(v: nat): (r: nat)
    ensures r <= 192
  {
    v % 4 * 64
  }

  /** The number of characters that `i` bytes need. */
  function Needed(i: nat): nat {
    if i == 0 then 0 else if i < 3 then i + 1 else 4 + Needed(i - 3)
  }

  function Unpacked(line: string, p: nat, i: nat, signed: bool): (x: seq<byte>)
    ensures |x| == i
    decreases i
  {
    if i == 0 then []
    else if i == 1 then [Byte0(line, p, signed)]
    else if i == 2 then [Byte0(line, p, signed), Byte1(line, p, signed)]
    else [Byte0(line, p, signed), Byte1(line, p, signed), Byte2(line, p, signed)] + Unpacked(line, p + 4, i - 3, signed)
  }

  /** What is written of a line of `i` more bytes: everything up to the first group with a character
      out of range, and of a last shorter group what precedes that character. */
  function Written(line: string, p: nat, i: nat, signed: bool): seq<byte>
    decreases i
  {
    if i >= 3 then
      if !InRange(line, p, 4, signed) then []
      else [Byte0(line, p, signed), Byte1(line, p, signed), Byte2(line, p, signed)] + Written(line, p + 4, i - 3, signed)
    else if i == 0 || !InRange(line, p, 2, signed) then []
    else if i == 1 || !InRange(line, p + 1, 2, signed) then [Byte0(line, p, signed)]
    else [Byte0(line, p, signed), Byte1(line, p, signed)]
  }

  /** One data line of length `i`: decoded iff the characters it needs are all in range. */
  method DecodeLine(line: string, length: nat, signed: bool) returns (out: seq<byte>, ok: bool)
    ensures ok <==> InRange(line, 1, Needed(length), signed)
    ensures ok ==> out == Unpacked(line, 1, length, signed)
    ensures out == Written(line, 1, length, signed)
  {
    hide Byte0, Byte1, Byte2, Needed, Unpacked, Plain, IsDec, At, Written;
    var p, i := 1, length;
    out := [];
    while i > 0
      invariant 1 <= p
      invariant out + Written(line, p, i, signed) == Written(line, 1, length, signed)
      invariant p + Needed(i) == 1 + Needed(length) && InRange(line, 1, p - 1, signed)
    {
      WrittenStep(line, p, i, signed);
      NeededStep(i);
      if i >= 3 {
        if !InRange(line, p, 4, signed) {
          return out, false;
        }
        var group := [Byte0(line, p, signed), Byte1(line, p, signed), Byte2(line, p, signed)];
        Regroup(out, group, Written(line, p + 4, i - 3, signed));
        out := out + group;
        p, i := p + 4, i - 3;
      } else {
        if !InRange(line, p, 2, signed) {
          return out, false;
        }
        out := out + [Byte0(line, p, signed)];
        if i >= 2 {
          if !InRange(line, p + 1, 2, signed) {
            return out, false;
          }
          out := out + [Byte1(line, p, signed)];
        }
        p, i := p + i + 1, 0;
      }
      WrittenStep(line, p, i, signed);
      NeededStep(i);
    }
    WrittenStep(line, p, i, signed);
    NeededStep(i);
    WrittenInRange(line, 1, length, signed);
    ok := true;
  }

  lemma Regroup(a: seq<byte>, b: seq<byte>, c: seq<byte>)
    ensures a + (b + c) == a + b + c
  {
  }

  lemma NeededStep(i: nat)
    ensures i == 0 ==> Needed(i) == 0
    ensures 0 < i < 3 ==> Needed(i) == i + 1
    ensures i >= 3 ==> Needed(i) == 4 + Needed(i - 3)
  {
  }

  /** A line in range is written whole. */
  lemma {:induction false} WrittenInRange(line: string, p: nat, i: nat, signed: bool)
    requires InRange(line, p, Needed(i), signed)
    ensures Written(line, p, i, signed) == Unpacked(line, p, i, signed)
    decreases i
  {
    hide Byte0, Byte1, Byte2, Plain, IsDec, At;
    if i >= 3 {
      WrittenInRange(line, p + 4, i - 3, signed);
    }
  }

  lemma WrittenStep(line: string, p: nat, i: nat, signed: bool)
    ensures i == 0 ==> Written(line, p, i, signed) == []
    ensures 0 < i < 3 && !InRange(line, p, 2, signed) ==> Written(line, p, i, signed) == []
    ensures 0 < i < 3 && InRange(line, p, 2, signed) && (i == 1 || !InRange(line, p + 1, 2, signed)) ==>
              Written(line, p, i, signed) == [Byte0(line, p, signed)]
    ensures i == 2 && InRange(line, p, 2, signed) && InRange(line, p + 1, 2, signed) ==>
              Written(line, p, i, signed) == [Byte0(line, p, signed), Byte1(line, p, signed)]
    ensures i >= 3 && !InRange(line, p, 4, signed) ==> Written(line, p, i, signed) == []
    ensures i >= 3 && InRange(line, p, 4, signed) ==>
              Written(line, p, i, signed) ==
              [Byte0(line, p, signed), Byte1(line, p, signed), Byte2(line, p, signed)] + Written(line, p + 4, i - 3, signed)
  {
    hide Byte0, Byte1, Byte2, InRange;
  }

  lemma UnpackedStep(line: string, p: nat, i: nat, signed: bool)
    ensures i == 0 ==> Unpacked(line, p, i, signed) == [] && Needed(i) == 0
    ensures i == 1 ==> Unpacked(line, p, i, signed) == [Byte0(line, p, signed)] && Needed(i) == 2
    ensures i == 2 ==> Unpacked(line, p, i, signed) == [Byte0(line, p, signed), Byte1(line, p, signed)] && Needed(i) == 3
    ensures i >= 3 ==> Needed(i) == 4 + Needed(i - 3)
    ensures i >= 3 ==>
      Unpacked(line, p, i, signed)
      == [Byte0(line, p, signed), Byte1(line, p, signed), Byte2(line, p, signed)] + Unpacked(line, p + 4, i - 3, signed)
  {
    hide Byte0, Byte1, Byte2;
  }

  // ----- decoding what was encoded -----

  lemma PrintedDecodes(v: nat, signed: bool)
    requires v < 64
    ensures var c := Plain(Printed(v) as int, signed); IsDec(c) && Dec(c) == v
  {
  }

  lemma BytesOfSextets(b0: byte, b1: byte, b2: byte)
    ensures b0 / 4 * 4 + (b0 % 4 * 16 + b1 / 16) / 16 == b0
    ensures HighBits16(b0 % 4 * 16 + b1 / 16) + (b1 % 16 * 4 + b2 / 64) / 4 == b1
    ensures HighBits64(b1 % 16 * 4 + b2 / 64) + b2 % 64 == b2
  {
    assert (b0 % 4 * 16 + b1 / 16) / 16 == b0 % 4;
    assert (b0 % 4 * 16 + b1 / 16) % 16 == b1 / 16;
    assert (b1 % 16 * 4 + b2 / 64) / 4 == b1 % 16;
    assert (b1 % 16 * 4 + b2 / 64) % 4 == b2 / 64;
  }

  lemma GroupDecodes(line: string, p: nat, b0: byte, b1: byte, b2: byte, signed: bool)
    requires p + 4 <= |line| && line[p..p + 4] == Quad(b0, b1, b2)
    ensures InRange(line, p, 4, signed)
    ensures Byte0(line, p, signed) == b0 && Byte1(line, p, signed) == b1 && Byte2(line, p, signed) == b2
  {
    hide Printed, Plain, Dec, IsDec, HighBits16, HighBits64;
    var q := Quad(b0, b1, b2);
    assert forall k :: 0 <= k < 4 ==> line[p + k] == line[p..p + 4][k] == q[k];
    assert line[p] == q[0] && line[p + 1] == q[1] && line[p + 2] == q[2] && line[p + 3] == q[3];
    PrintedDecodes(b0 / 4, signed);
    PrintedDecodes(b0 % 4 * 16 + b1 / 16, signed);
    PrintedDecodes(b1 % 16 * 4 + b2 / 64, signed);
    PrintedDecodes(b2 % 64, signed);
    BytesOfSextets(b0, b1, b2);
  }

  /** Where the groups of `x` stand, they decode to `x`. */
  lemma {:induction false} QuadsDecode(line: string, p: nat, x: seq<byte>, signed: bool)
    requires p + |Quads(x)| <= |line| && line[p..p + |Quads(x)|] == Quads(x)
    ensures InRange(line, p, Needed(|x|), signed) && Unpacked(line, p, |x|, signed) == x
    decreases |x|
  {
    hide Quads, Quad, Byte0, Byte1, Byte2, Unpacked, Needed, At, Plain, IsDec;
    UnpackedStep(line, p, |x|, signed);
    if x != [] {
      QuadsStep(x);
      var b1, b2 := if |x| > 1 then x[1] else 0, if |x| > 2 then x[2] else 0;
      var n := |Quads(x)|;
      SliceOfSlice(line, p, p + n, 4);
      assert Quads(x)[..4] == Quad(x[0], b1, b2);
      GroupDecodes(line, p, x[0], b1, b2, signed);
      if |x| > 3 {
        assert Quads(x)[4..] == Quads(x[3..]);
        QuadsDecode(line, p + 4, x[3..], signed);
        assert x == [x[0], x[1], x[2]] + x[3..];
      } else if |x| == 3 {
        UnpackedStep(line, p + 4, 0, signed);
      }
    }
  }

  lemma {:induction false} QuadsPrintable(x: seq<byte>)
    ensures |Quads(x)| <= 2 * |x| + 2
    ensures forall k :: 0 <= k < |Quads(x)| ==> 0x21 <= Quads(x)[k] as int <= 0x60
  {
    hide Quads, Printed;
    if x == [] {
      QuadsEnd(x);
    } else {
      QuadsStep(x);
      if |x| > 3 {
        QuadsPrintable(x[3..]);
      }
    }
  }

  lemma QuadsEnd(x: seq<byte>)
    requires x == []
    ensures Quads(x) == []
  {
  }

  /** A data line is printable, is not taken for the terminating line, and decodes to its bytes,
      whether char is signed or not. */
  lemma LineDecodes(x: seq<byte>, signed: bool)
    requires 0 < |x| <= CHUNK
    ensures var line := Line(x);
            && 2 <= |line| <= 96 && line[|line| - 1] == '\n'
            && (forall k :: 0 <= k < |line| - 1 ==> 0x21 <= line[k] as int <= 0x60)
            && Sextet(line, 0, signed) == |x|
            && InRange(line, 1, Needed(|x|), signed) && Unpacked(line, 1, |x|, signed) == x
  {
    hide Quads, Printed, Needed, Unpacked, InRange, Plain, Dec;
    QuadsPrintable(x);
    PrintedDecodes(|x|, signed);
    var line := Line(x);
    assert line[1..1 + |Quads(x)|] == Quads(x);
    QuadsDecode(line, 1, x, signed);
  }

  /** `s` is `line` with spaces in the place of some backquotes. */
  ghost predicate Spaced(line: string, s: string) {
    |line| == |s| && forall k :: 0 <= k < |s| ==> s[k] == line[k] || (line[k] == '`' && s[k] == ' ')
  }

  lemma SpacedSextet(line: string, s: string, p: nat, signed: bool)
    requires Spaced(line, s)
    ensures Sextet(s, p, signed) == Sextet(line, p, signed)
    ensures IsDec(Plain(At(s, p), signed)) == IsDec(Plain(At(line, p), signed))
  {
  }

  lemma {:induction false} SpacedUnpacked(line: string, s: string, p: nat, i: nat, signed: bool)
    requires Spaced(line, s)
    ensures Unpacked(s, p, i, signed) == Unpacked(line, p, i, signed)
    decreases i
  {
    hide Sextet, Unpacked, Spaced, At, Plain;
    UnpackedStep(line, p, i, signed);
    UnpackedStep(s, p, i, signed);
    SpacedSextet(line, s, p, signed);
    SpacedSextet(line, s, p + 1, signed);
    SpacedSextet(line, s, p + 2, signed);
    SpacedSextet(line, s, p + 3, signed);
    if i >= 3 {
      SpacedUnpacked(line, s, p + 4, i - 3, signed);
    }
  }

  /** A data line decodes to its bytes also where zeros are written as spaces. */
  lemma SpacedLineDecodes(x: seq<byte>, s: string, signed: bool)
    requires 0 < |x| <= CHUNK && Spaced(Line(x), s)
    ensures Sextet(s, 0, signed) == |x|
    ensures InRange(s, 1, Needed(|x|), signed) && Unpacked(s, 1, |x|, signed) == x
  {
    hide Line, Sextet, Unpacked, Needed, Plain, IsDec, Spaced;
    LineDecodes(x, signed);
    SpacedSextet(Line(x), s, 0, signed);
    SpacedUnpacked(Line(x), s, 1, |x|, signed);
    forall k | 1 <= k < 1 + Needed(|x|) ensures IsDec(Plain(At(s, k), signed)) {
      SpacedSextet(Line(x), s, k, signed);
    }
  }

  // ----- the whole stream -----

  /** The lines that uu_decode reads, from `pos` on. */
  function TextLines(text: string, pos: nat): seq<string>
    requires pos <= |text|
    decreases |text| - pos
  {
    if pos == |text| then []
    else
      var end := LineEnd(text, pos, MAXPATHLEN);
      [text[pos..end]] + TextLines(text, end)
  }

  function Length(line: string, signed: bool): nat {
    Sextet(line, 0, signed)
  }

  /** A line with a length other than zero and all that it needs in range. */
  predicate Data(line: string, signed: bool) {
    Length(line, signed) != 0 && InRange(line, 1, Needed(Length(line, signed)), signed)
  }

  /** The first line, if any, that is no data line. */
  function Stop(lines: seq<string>, signed: bool, k: nat): (stop: nat)
    requires k <= |lines|
    ensures k <= stop <= |lines| && (forall j :: k <= j < stop ==> Data(lines[j], signed))
    ensures stop < |lines| ==> !Data(lines[stop], signed)
    decreases |lines| - k
  {
    if k < |lines| && Data(lines[k], signed) then Stop(lines, signed, k + 1) else k
  }

  /** The bytes of the first `k` lines. */
  function Joined(lines: seq<string>, signed: bool, k: nat): seq<byte>
    requires k <= |lines|
  {
    if k == 0 then []
    else Joined(lines, signed, k - 1) + Unpacked(lines[k - 1], 1, Length(lines[k - 1], signed), signed)
  }

  /** How uu_decode ends, by the lines of the text. */
  function Verdict(lines: seq<string>, signed: bool, rflag: bool): Outcome {
    var k := Stop(lines, signed, 0);
    var eof := if rflag then RawEnd else ShortFile;
    if k == |lines| then eof
    else if Length(lines[k], signed) != 0 then OutOfRange
    else if k + 1 == |lines| then eof
    else if EndsWith(CString(lines[k + 1]), "end") then Finished
    else NoEnd
  }

  /** What it writes: the data lines, and of a line out of range what precedes the character. */
  function Output(lines: seq<string>, signed: bool): seq<byte> {
    var k := Stop(lines, signed, 0);
    Joined(lines, signed, k) +
    if k < |lines| then Written(lines[k], 1, Length(lines[k], signed), signed) else []
  }

  /** The first `k` lines are data lines. */
  ghost predicate AllData(lines: seq<string>, signed: bool, k: nat) {
    k <= |lines| && forall j :: 0 <= j < k ==> Data(lines[j], signed)
  }

  lemma StopIsUnique(lines: seq<string>, signed: bool, k: nat)
    requires AllData(lines, signed, k) && (k < |lines| ==> !Data(lines[k], signed))
    ensures Stop(lines, signed, 0) == k
  {
    hide Data;
    var stop := Stop(lines, signed, 0);
    assert stop < |lines| ==> !Data(lines[stop], signed);
  }

  /** Finished exactly if the first line that is no data line has length zero and the next one is an
      end line; out of range exactly if it has another length. */
  lemma VerdictExactly(lines: seq<string>, signed: bool, rflag: bool)
    ensures Verdict(lines, signed, rflag) == Finished <==>
            exists k: nat :: AllData(lines, signed, k) && k + 1 < |lines|
              && Length(lines[k], signed) == 0 && EndsWith(CString(lines[k + 1]), "end")
    ensures Verdict(lines, signed, rflag) == OutOfRange <==>
            exists k: nat :: AllData(lines, signed, k) && k < |lines|
              && Length(lines[k], signed) != 0 && !Data(lines[k], signed)
  {
    hide EndsWith, CString, Length, InRange, Needed;
    var stop := Stop(lines, signed, 0);
    assert AllData(lines, signed, stop);
    forall k: nat | AllData(lines, signed, k) && k < |lines| && !Data(lines[k], signed) ensures stop == k {
      StopIsUnique(lines, signed, k);
    }
  }

  lemma TextLinesStep(text: string, pos: nat)
    requires pos <= |text|
    ensures pos == |text| ==> TextLines(text, pos) == []
    ensures var end := LineEnd(text, pos, MAXPATHLEN);
            pos < |text| ==> pos < end && TextLines(text, pos) == [text[pos..end]] + TextLines(text, end)
  {
    hide LineEnd;
  }

  lemma JoinedStep(lines: seq<string>, signed: bool, k: nat)
    ensures Joined(lines, signed, 0) == []
    ensures k < |lines| ==>
              Joined(lines, signed, k + 1)
              == Joined(lines, signed, k) + Unpacked(lines[k], 1, Length(lines[k], signed), signed)
  {
    hide Unpacked, Length;
  }

  /** uu_decode on the stream `text`; `rflag` is the -r option. */
  method DecodeText(text: string, signed: bool, rflag: bool) returns (out: seq<byte>, outcome: Outcome)
    ensures outcome == Verdict(TextLines(text, 0), signed, rflag)
    ensures out == Output(TextLines(text, 0), signed)
  {
    hide InRange, Unpacked, Needed, Sextet, EndsWith, CString, TextLines, LineEnd, Written, Joined, Stop;
    ghost var lines, k := TextLines(text, 0), 0;
    var pos := 0;
    out := [];
    JoinedStep(lines, signed, 0);
    while true
      invariant pos <= |text| && AllData(lines, signed, k)
      invariant TextLines(text, pos) == lines[k..] && out == Joined(lines, signed, k)
      decreases |text| - pos
    {
      TextLinesStep(text, pos);
      var end := Fgets(text, pos, INBUF);
      if end == pos {
        StopIsUnique(lines, signed, k);
        return out, if rflag then RawEnd else ShortFile;
      }
      var line := text[pos..end];
      assert line == lines[k..][0] == lines[k] && TextLines(text, end) == lines[k..][1..] == lines[k + 1..];
      pos := end;
      var i := Sextet(line, 0, signed);
      if i == 0 {
        break;
      }
      var bytes, ok := DecodeLine(line, i, signed);
      out := out + bytes;
      if !ok {
        StopIsUnique(lines, signed, k);
        return out, OutOfRange;
      }
      JoinedStep(lines, signed, k);
      k := k + 1;
    }
    StopIsUnique(lines, signed, k);
    WrittenStep(lines[k], 1, 0, signed);
    TextLinesStep(text, pos);
    var end := Fgets(text, pos, INBUF);
    if end == pos {
      return out, if rflag then RawEnd else ShortFile;
    }
    assert text[pos..end] == lines[k + 1..][0] == lines[k + 1];
    outcome := if EndsWith(CString(text[pos..end]), "end") then Finished else NoEnd;
  }

  // ----- what encode has written -----

  /** A line is read up to its newline. */
  lemma LineIsRead(text: string, pos: nat, line: string, rest: string)
    requires pos <= |text| && text[pos..] == line + rest
    requires 0 < |line| < MAXPATHLEN && line[|line| - 1] == '\n'
    requires forall k :: 0 <= k < |line| - 1 ==> line[k] != '\n'
    ensures var end := LineEnd(text, pos, MAXPATHLEN);
            pos < end <= |text| && text[pos..end] == line && text[end..] == rest
  {
    hide LineEnd;
    var end := LineEnd(text, pos, MAXPATHLEN);
    assert forall k :: 0 <= k < |line| ==> text[pos + k] == text[pos..][k] == line[k];
    assert pos + |line| <= |text|;
    assert end - 1 < |text| && (end - 1 - pos < |line| ==> text[pos + (end - 1 - pos)] == line[end - 1 - pos]);
    assert text[pos + (|line| - 1)] == '\n';
    assert end == pos + |line|;
    assert text[pos..end] == text[pos..][..|line|];
    assert text[end..] == text[pos..][|line|..];
  }

  /** The decoder has passed `k` data lines; the lines of `left` and then `tail` are to come. */
  ghost predicate Pending(text: string, tail: string, lines: seq<string>, k: nat, pos: nat, signed: bool,
                          x: seq<byte>, left: seq<byte>) {
    && pos <= |text| && AllData(lines, signed, k) && TextLines(text, pos) == lines[k..]
    && Joined(lines, signed, k) + left == x && text[pos..] == Body(left) + tail
  }

  lemma DataLine(text: string, tail: string, lines: seq<string>, k: nat, pos: nat, signed: bool, x: seq<byte>, left: seq<byte>)
    returns (end: nat, n: nat)
    requires Pending(text, tail, lines, k, pos, signed, x, left) && left != []
    ensures 0 < n <= |left| && Pending(text, tail, lines, k + 1, end, signed, x, left[n..])
  {
    hide Body, Line, InRange, Unpacked, Needed, Sextet, TextLines, LineEnd, Joined;
    n := if |left| < CHUNK then |left| else CHUNK;
    end := LineEnd(text, pos, MAXPATHLEN);
    BodyStep(left, n);
    LineDecodes(left[..n], signed);
    var line := Line(left[..n]);
    var rest := Body(left[n..]) + tail;
    assert forall k :: 0 <= k < |line| - 1 ==> line[k] as int >= 0x21 ==> line[k] != '\n';
    assert text[pos..] == line + rest;
    LineIsRead(text, pos, line, rest);
    TextLinesStep(text, pos);
    assert lines[k..][0] == lines[k] && lines[k..][1..] == lines[k + 1..];
    JoinedStep(lines, signed, k);
    assert left == left[..n] + left[n..];
  }

  /** The lines of an encoded body are data lines that hold its bytes, whatever stands behind. */
  lemma {:induction false} BodyIsRead(text: string, tail: string, lines: seq<string>, k: nat, pos: nat, signed: bool,
                                      x: seq<byte>, left: seq<byte>)
    returns (k': nat, pos': nat)
    requires Pending(text, tail, lines, k, pos, signed, x, left)
    ensures Pending(text, tail, lines, k', pos', signed, x, [])
    decreases |left|
  {
    hide Pending;
    if left == [] {
      return k, pos;
    }
    var end, n := DataLine(text, tail, lines, k, pos, signed, x, left);
    k', pos' := BodyIsRead(text, tail, lines, k + 1, end, signed, x, left[n..]);
  }

  lemma StartPending(text: string, tail: string, signed: bool, x: seq<byte>)
    requires text == Body(x) + tail
    ensures Pending(text, tail, TextLines(text, 0), 0, 0, signed, x, x)
  {
    hide Body, TextLines;
    assert text[0..] == text && [] + x == x;
  }

  lemma EndPending(text: string, tail: string, lines: seq<string>, k: nat, pos: nat, signed: bool, x: seq<byte>)
    requires Pending(text, tail, lines, k, pos, signed, x, [])
    ensures pos <= |text| && AllData(lines, signed, k) && TextLines(text, pos) == lines[k..]
    ensures Joined(lines, signed, k) == x && text[pos..] == tail
  {
    hide Body, TextLines, Joined, Data;
    BodyEnds([]);
    assert Joined(lines, signed, k) + [] == Joined(lines, signed, k);
  }

  /** On what encode writes for `x`, uu_decode writes `x` and finds the end line. */
  lemma EncodedIsDecoded(x: seq<byte>, signed: bool, rflag: bool)
    ensures var lines := TextLines(Body(x) + TERMINATOR, 0);
            Verdict(lines, signed, rflag) == Finished && Output(lines, signed) == x
  {
    hide Body, InRange, Needed, Unpacked, TextLines, LineEnd, Joined, Stop, EndsWith, CString, Written, Pending;
    var text := Body(x) + TERMINATOR;
    var lines := TextLines(text, 0);
    StartPending(text, TERMINATOR, signed, x);
    var k, pos := BodyIsRead(text, TERMINATOR, lines, 0, 0, signed, x, x);
    EndPending(text, TERMINATOR, lines, k, pos, signed, x);
    TerminatorLines(text, pos, signed);
    assert lines[k..][0] == lines[k] && lines[k..][1] == lines[k + 1];
    StopIsUnique(lines, signed, k);
    WrittenStep(lines[k], 1, 0, signed);
    assert x + [] == x;
  }

  lemma TerminatorLines(text: string, pos: nat, signed: bool)
    requires pos <= |text| && text[pos..] == TERMINATOR
    ensures TextLines(text, pos) == ["`\n", "end\n"]
    ensures Length("`\n", signed) == 0 && EndsWith(CString("end\n"), "end")
  {
    hide TextLines, LineEnd;
    assert TERMINATOR == "`\n" + "end\n" && "end\n" == "end\n" + "";
    LineIsRead(text, pos, "`\n", "end\n");
    var p := LineEnd(text, pos, MAXPATHLEN);
    LineIsRead(text, p, "end\n", "");
    TextLinesStep(text, pos);
    TextLinesStep(text, p);
    TextLinesStep(text, LineEnd(text, p, MAXPATHLEN));
    assert '\0' !in "end\n";
  }

  /** The body alone is decoded too, but reported short unless -r is given. */
  lemma TruncatedIsDecoded(x: seq<byte>, signed: bool, rflag: bool)
    ensures var lines := TextLines(Body(x), 0);
            Verdict(lines, signed, rflag) == (if rflag then RawEnd else ShortFile) && Output(lines, signed) == x
  {
    hide Body, Data, Unpacked, TextLines, LineEnd, Joined, Stop, EndsWith, CString, Written, Pending;
    var text := Body(x);
    var lines := TextLines(text, 0);
    assert text == Body(x) + "";
    StartPending(text, "", signed, x);
    var k, pos := BodyIsRead(text, "", lines, 0, 0, signed, x, x);
    EndPending(text, "", lines, k, pos, signed, x);
    TextLinesStep(text, pos);
    assert |text[pos..]| == |text| - pos && |lines[k..]| == |lines| - k;
    StopIsUnique(lines, signed, k);
    assert x + [] == x;
  }

  /** uuencode followed by uudecode returns the bytes, also between machines whose chars differ in
      signedness. */
  method RoundTrip(x: seq<byte>, sender: bool, receiver: bool, rflag: bool)
    returns (y: seq<byte>, outcome: Outcome)
    ensures y == x && outcome == Finished
  {
    hide *;
    var text := EncodeText(x, sender);
    y, outcome := DecodeText(text, receiver, rflag);
    EncodedIsDecoded(x, receiver, rflag);
  }
}
