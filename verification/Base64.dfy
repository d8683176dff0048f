/** b64_ntop and b64_pton: Base64 as in section 5.2 of RFC 1521. */
module Base64 {
  import opened Bytes
  import opened Options
  import opened CaseFold

  type sextet = n: int | 0 <= n < 64

  // ----- bitwise or on the values the decoder combines -----

  function Or(a: nat, b: nat): nat {
    if a == 0 && b == 0 then 0
    else (if a % 2 == 1 || b % 2 == 1 then 1 else 0) + 2 * Or(a / 2, b / 2)
  }

  lemma {:induction false} OrZero(a: nat)
    ensures Or(a, 0) == a
  {
    if a != 0 {
      OrZero(a / 2);
    }
  }

  lemma OrTwoBits(a: nat, b: nat)
    ensures Or(4 * a, b) == b % 4 + 4 * Or(a, b / 4)
  {
    assert Or(4 * a, b) == b % 2 + 2 * Or(2 * a, b / 2);
    assert Or(2 * a, b / 2) == b / 2 % 2 + 2 * Or(a, b / 2 / 2);
  }

  /** Operands without a common bit add up. */
  lemma OrTwo(a: nat, b: nat)
    requires b < 4
    ensures Or(4 * a, b) == 4 * a + b
  {
    hide Or;
    OrTwoBits(a, b);
    OrZero(a);
  }

  lemma OrFour(a: nat, b: nat)
    requires b < 16
    ensures Or(16 * a, b) == 16 * a + b
  {
    hide Or;
    OrTwoBits(4 * a, b);
    OrTwo(a, b / 4);
  }

  lemma OrSix(a: nat, b: nat)
    requires b < 64
    ensures Or(64 * a, b) == 64 * a + b
  {
    hide Or;
    OrTwoBits(16 * a, b);
    OrFour(a, b / 4);
  }

  // ----- the alphabet -----

  const PAD := '='

  /** Base64[v]: A-Z, a-z, 0-9, + and /. */
  function Digit(v: sextet): char {
    if v < 26 then (65 + v) as char
    else if v < 52 then (71 + v) as char
    else if v < 62 then (v - 4) as char
    else if v == 62 then '+'
    else '/'
  }

  /** strchr(Base64, c) - Base64, or -1. */
  function Sextet(c: char): (v: int)
    ensures -1 <= v < 64
    ensures v >= 0 ==> Digit(v) == c
  {
    if 'A' <= c <= 'Z' then c as int - 65
    else if 'a' <= c <= 'z' then c as int - 71
    else if '0' <= c <= '9' then c as int + 4
    else if c == '+' then 62
    else if c == '/' then 63
    else -1
  }

  /** The digits of Base64, in order. */
  const ALPHABET := CAPITALS + LETTERS + "0123456789" + "+/"

  lemma DigitIsLetter(v: sextet)
    ensures |ALPHABET| == 64 && Digit(v) == ALPHABET[v]
  {
    if v < 26 {
      assert CAPITALS[v] == Digit(v);
    } else if v < 52 {
      assert LETTERS[v - 26] == Digit(v);
    } else if v < 62 {
      assert "0123456789"[v - 52] == Digit(v);
    }
  }

  /** The value of a character is its place in the alphabet; other characters have none. */
  lemma SextetIsIndex(c: char)
    ensures Sextet(c) >= 0 ==> Sextet(c) < |ALPHABET| && ALPHABET[Sextet(c)] == c
    ensures Sextet(c) == -1 <==> c !in ALPHABET
  {
    hide Sextet, Digit;
    forall v: sextet ensures |ALPHABET| == 64 && Digit(v) == ALPHABET[v] && Sextet(Digit(v)) == v {
      DigitIsLetter(v);
      SextetOfDigit(v);
    }
    if c in ALPHABET {
      var v :| 0 <= v < |ALPHABET| && ALPHABET[v] == c;
      assert Sextet(Digit(v)) == v;
    }
  }

  lemma SextetOfDigit(v: sextet)
    ensures Sextet(Digit(v)) == v && Digit(v) != PAD && !Space(Digit(v))
  {
  }

  /** isspace. */
  predicate Space(c: char) {
    c == ' ' || '\t' <= c <= '\r'
  }

  /** Blank, tab, newline, vertical tab, form feed and carriage return. */
  lemma SpaceIsBlank(c: char)
    ensures Space(c) <==> c as int in {32, 9, 10, 11, 12, 13}
  {
  }

  function Strip(s: string): string {
    if s == [] then []
    else if Space(s[0]) then Strip(s[1..])
    else [s[0]] + Strip(s[1..])
  }

  lemma {:induction false} StripAppend(a: string, b: string)
    ensures Strip(a + b) == Strip(a) + Strip(b)
  {
    if a == [] {
      assert a + b == b;
    } else {
      assert (a + b)[1..] == a[1..] + b;
      StripAppend(a[1..], b);
    }
  }

  // ----- encoding -----

  /** The four characters for one, two or three bytes. */
  function Quantum(x: seq<byte>): (s: string)
    requires 1 <= |x| <= 3
    ensures |s| == 4
  {
    var b1 := if |x| > 1 then x[1] else 0;
    var b2 := if |x| > 2 then x[2] else 0;
    [Digit(x[0] / 4), Digit(x[0] % 4 * 16 + b1 / 16)] +
    [if |x| > 1 then Digit(b1 % 16 * 4 + b2 / 64) else PAD, if |x| > 2 then Digit(b2 % 64) else PAD]
  }

  function Encode(x: seq<byte>): string {
    if x == [] then []
    else if |x| <= 3 then Quantum(x)
    else Quantum(x[..3]) + Encode(x[3..])
  }

  lemma {:induction false} EncodedLength(x: seq<byte>)
    ensures |Encode(x)| == (|x| + 2) / 3 * 4
  {
    hide Quantum;
    if |x| > 3 {
      EncodedLength(x[3..]);
    }
  }

  lemma {:induction false} EncodePrefix(x: seq<byte>, k: nat)
    requires 3 * k <= |x|
    ensures Encode(x) == Encode(x[..3 * k]) + Encode(x[3 * k..])
  {
    hide Quantum, Encode;
    if k == 0 {
      assert x[0..] == x && x[..0] == [];
      EncodeSteps(x[..0]);
    } else if |x| == 3 * k {
      assert x[..3 * k] == x && x[3 * k..] == [];
      EncodeSteps(x[3 * k..]);
    } else {
      EncodePrefix(x[3..], k - 1);
      assert x[3..][..3 * (k - 1)] == x[..3 * k][3..];
      assert x[3..][3 * (k - 1)..] == x[3 * k..];
      assert x[..3 * k][..3] == x[..3];
      EncodeSteps(x);
      EncodeSteps(x[..3 * k]);
      EncodeSteps(x[..3 * k][3..]);
    }
  }

  /** Encode, by its first group. */
  lemma EncodeSteps(x: seq<byte>)
    ensures x == [] ==> Encode(x) == []
    ensures |x| == 3 ==> Encode(x) == Quantum(x[..3])
    ensures |x| > 3 ==> Encode(x) == Quantum(x[..3]) + Encode(x[3..])
  {
    hide Quantum;
    assert |x| == 3 ==> x[..3] == x;
  }

  /** The number that up to three bytes make, missing ones counting as zero. */
  function GroupNumber(x: seq<byte>): (n: nat)
    requires 1 <= |x| <= 3
  {
    var b0: int, b1: int, b2: int := x[0], if |x| > 1 then x[1] else 0, if |x| > 2 then x[2] else 0;
    65536 * b0 + 256 * b1 + b2
  }

  /** A group's characters are the base-64 digits of that number, with one "=" for every byte that is
      missing. */
  lemma GroupIsNumber(x: seq<byte>)
    requires 1 <= |x| <= 3
    ensures var n := GroupNumber(x);
            && |ALPHABET| == 64
            && Quantum(x)[0] == ALPHABET[n / 262144 % 64] && Quantum(x)[1] == ALPHABET[n / 4096 % 64]
            && Quantum(x)[2] == (if |x| > 1 then ALPHABET[n / 64 % 64] else '=')
            && Quantum(x)[3] == (if |x| > 2 then ALPHABET[n % 64] else '=')
  {
    hide Digit, ALPHABET, GroupNumber;
    var b0, b1, b2 := x[0], if |x| > 1 then x[1] else 0, if |x| > 2 then x[2] else 0;
    DigitsOfNumber(x, b0, b1, b2);
    DigitIsLetter(b0 / 4);
    DigitIsLetter(b0 % 4 * 16 + b1 / 16);
    DigitIsLetter(b1 % 16 * 4 + b2 / 64);
    DigitIsLetter(b2 % 64);
  }

  lemma DigitsOfNumber(x: seq<byte>, b0: byte, b1: byte, b2: byte)
    requires 1 <= |x| <= 3 && b0 == x[0] && b1 == (if |x| > 1 then x[1] else 0) && b2 == if |x| > 2 then x[2] else 0
    ensures var n := GroupNumber(x);
            && n / 262144 % 64 == b0 / 4 && n / 4096 % 64 == b0 % 4 * 16 + b1 / 16
            && n / 64 % 64 == b1 % 16 * 4 + b2 / 64 && n % 64 == b2 % 64
  {
    var n := GroupNumber(x);
    var n1, n2 := 1024 * b0 + 4 * b1 + b2 / 64, 16 * b0 + b1 / 16;
    DividedBy(n, 64, n1, b2 % 64);
    DividedBy(n, 4096, n2, b1 % 16 * 256 + b2);
    DividedBy(n, 262144, b0 / 4, b0 % 4 * 65536 + 256 * b1 + b2);
    DividedBy(n1, 64, n2, b1 % 16 * 4 + b2 / 64);
    DividedBy(n2, 64, b0 / 4, b0 % 4 * 16 + b1 / 16);
    DividedBy(b0 / 4, 64, 0, b0 / 4);
  }

  /** The text is that of the groups, three bytes in each but the last. */
  lemma EncodedAt(x: seq<byte>, k: nat)
    requires 3 * k < |x|
    ensures 4 * k + 4 <= |Encode(x)|
    ensures Encode(x)[4 * k..4 * k + 4] == Quantum(x[3 * k..if |x| < 3 * k + 3 then |x| else 3 * k + 3])
  {
    hide Quantum, Encode;
    var rest := x[3 * k..];
    EncodedLength(x[..3 * k]);
    EncodedLength(rest);
    EncodePrefix(x, k);
    EncodeFirst(rest);
    var n := if |rest| < 3 then |rest| else 3;
    assert rest[..n] == x[3 * k..3 * k + n];
    assert |Encode(x[..3 * k])| == 4 * k && Encode(x)[4 * k..] == Encode(rest);
  }

  lemma EncodeFirst(x: seq<byte>)
    requires x != []
    ensures 4 <= |Encode(x)| && Encode(x)[..4] == Quantum(x[..if |x| < 3 then |x| else 3])
  {
    hide Quantum;
    assert |x| <= 3 ==> x[..|x|] == x;
  }

  /** b64_ntop: three bytes at a time into `target`, then the padded remainder and a NUL.
      It succeeds exactly when the target has room for the text and the NUL. */
  method Ntop(src: seq<byte>, target: array<char>) returns (n: int)
    modifies target
    ensures n == -1 || n == |Encode(src)|
    ensures n != -1 <==> target.Length > (|src| + 2) / 3 * 4
    ensures n != -1 ==> n < target.Length && target[..n] == Encode(src) && target[n] == '\0'
  {
    hide Quantum, Encode;
    var at, datalength := 0, 0;
    EncodedLength(src);
    Restart(src);
    while 2 < |src| - at
      invariant 0 <= at <= |src| && at % 3 == 0 && datalength == at / 3 * 4 <= target.Length
      invariant target[..datalength] + Encode(src[at..]) == Encode(src)
    {
      if datalength + 4 > target.Length {
        return -1;
      }
      EncodeNext(src[at..]);
      assert src[at..][3..] == src[at + 3..];
      WriteQuantum(target, datalength, src[at..][..3]);
      at, datalength := at + 3, datalength + 4;
    }
    if at != |src| {
      if datalength + 4 > target.Length {
        return -1;
      }
      EncodeLast(src[at..]);
      WriteQuantum(target, datalength, src[at..]);
      at, datalength := |src|, datalength + 4;
    } else {
      EncodeNothing(src[at..]);
    }
    if datalength >= target.Length {
      return -1;
    }
    target[datalength] := '\0';
    n := datalength;
  }

  lemma Restart(src: seq<byte>)
    ensures src[0..] == src && [] + Encode(src) == Encode(src)
  {
  }

  lemma EncodeNext(x: seq<byte>)
    requires |x| >= 3
    ensures Encode(x) == Quantum(x[..3]) + Encode(x[3..])
  {
    hide Quantum;
    if |x| == 3 {
      assert x[..3] == x && x[3..] == [];
    }
  }

  lemma EncodeLast(x: seq<byte>)
    requires 1 <= |x| <= 3
    ensures Encode(x) == Quantum(x)
  {
  }

  lemma EncodeNothing(x: seq<byte>)
    requires x == []
    ensures Encode(x) == []
  {
  }

  method WriteQuantum(target: array<char>, at: nat, x: seq<byte>)
    requires 1 <= |x| <= 3 && at + 4 <= target.Length
    modifies target
    ensures target[..at + 4] == old(target[..at]) + Quantum(x)
  {
    var input1 := if |x| > 1 then x[1] else 0;
    var input2 := if |x| > 2 then x[2] else 0;
    target[at] := Digit(x[0] / 4);
    target[at + 1] := Digit(x[0] % 4 * 16 + input1 / 16);
    target[at + 2] := if |x| == 1 then PAD else Digit(input1 % 16 * 4 + input2 / 64);
    target[at + 3] := if |x| < 3 then PAD else Digit(input2 % 64);
  }

  // ----- decoding -----

  /** The decoder between two characters: how many characters of the current group are in, the
      bytes completed, and the bits waiting in target[tarindex]. */
  datatype Acc = Acc(phase: nat, out: seq<byte>, slop: byte) {
    predicate Valid() {
      match phase
      case 0 => slop == 0 && |out| % 3 == 0
      case 1 => slop % 4 == 0 && |out| % 3 == 0
      case 2 => slop % 16 == 0 && |out| % 3 == 1
      case 3 => slop % 64 == 0 && |out| % 3 == 2
      case _ => false
    }

    /** Three more bytes at a group boundary. */
    function Group(x: seq<byte>): (r: Acc)
      requires Valid() && phase == 0 && |x| == 3
      ensures r.Valid() && r.phase == 0
    {
      Acc(0, out + x, 0)
    }

    /** Bytes of target in use. */
    function Needed(): nat {
      |out| + if phase == 0 then 0 else 1
    }

    /** The next character has value `v`. */
    function Push(v: sextet): (r: Acc)
      requires Valid()
      ensures r.Valid()
    {
      match phase
      case 0 => Acc(1, out, 4 * v)
      case 1 => Acc(2, out + [slop + v / 16], v % 16 * 16)
      case 2 => Acc(3, out + [slop + v / 4], v % 4 * 64)
      case _ => Acc(0, out + [slop + v], 0)
    }
  }

  const START := Acc(0, [], 0)

  /** What b64_pton accepts of the text `t` without whitespace, and the bytes it yields. */
  function Parse(t: string, a: Acc): Option<seq<byte>>
    requires a.Valid()
  {
    if t == [] then if a.phase == 0 then Some(a.out) else None
    else if t[0] == PAD then
      if a.slop == 0 && ((a.phase == 2 && t == "==") || (a.phase == 3 && t == "=")) then Some(a.out) else None
    else if Sextet(t[0]) < 0 then None
    else Parse(t[1..], a.Push(Sextet(t[0])))
  }

  /** Reading four digits from a group boundary completes three bytes. */
  function Triple(c0: sextet, c1: sextet, c2: sextet, c3: sextet): (x: seq<byte>)
    ensures |x| == 3
  {
    [4 * c0 + c1 / 16, c1 % 16 * 16 + c2 / 4, c2 % 4 * 64 + c3]
  }

  lemma PushFour(a: Acc, c0: sextet, c1: sextet, c2: sextet, c3: sextet)
    requires a.Valid() && a.phase == 0
    ensures a.Push(c0).Push(c1) == Acc(2, a.out + Triple(c0, c1, 0, 0)[..1], c1 % 16 * 16)
    ensures a.Push(c0).Push(c1).Push(c2) == Acc(3, a.out + Triple(c0, c1, c2, 0)[..2], c2 % 4 * 64)
    ensures a.Push(c0).Push(c1).Push(c2).Push(c3) == a.Group(Triple(c0, c1, c2, c3))
  {
    var t := Triple(c0, c1, c2, c3);
    assert a.out + [t[0]] + [t[1]] == a.out + t[..2];
    assert a.out + [t[0]] + [t[1]] + [t[2]] == a.out + t;
  }

  lemma QuantumDigits(x: seq<byte>)
    requires 1 <= |x| <= 3
    ensures var q := Quantum(x);
            && Sextet(q[0]) == x[0] / 4 && Sextet(q[1]) == x[0] % 4 * 16 + (if |x| > 1 then x[1] / 16 else 0)
            && (|x| > 1 ==> Sextet(q[2]) == x[1] % 16 * 4 + (if |x| > 2 then x[2] / 64 else 0))
            && (|x| > 2 ==> Sextet(q[3]) == x[2] % 64)
            && q[0] != PAD && q[1] != PAD && (q[2] == PAD <==> |x| == 1) && (q[3] == PAD <==> |x| < 3)
  {
    hide Sextet, Digit;
    SextetOfDigit(x[0] / 4);
    var b1 := if |x| > 1 then x[1] else 0;
    var b2 := if |x| > 2 then x[2] else 0;
    SextetOfDigit(x[0] % 4 * 16 + b1 / 16);
    SextetOfDigit(b1 % 16 * 4 + b2 / 64);
    SextetOfDigit(b2 % 64);
  }

  lemma ParseDigit(t: string, a: Acc)
    requires a.Valid() && t != [] && Sextet(t[0]) >= 0
    ensures Parse(t, a) == Parse(t[1..], a.Push(Sextet(t[0])))
  {
  }

  /** Parsing runs through the first `n` characters if they are digits. */
  lemma ParseTwo(t: string, a: Acc)
    requires a.Valid() && |t| >= 2 && Sextet(t[0]) >= 0 && Sextet(t[1]) >= 0
    ensures Parse(t, a) == Parse(t[2..], a.Push(Sextet(t[0])).Push(Sextet(t[1])))
  {
    hide Sextet, Parse, Acc.Push;
    ParseDigit(t, a);
    ParseDigit(t[1..], a.Push(Sextet(t[0])));
    assert t[1..][1..] == t[2..];
  }

  lemma ParseThree(t: string, a: Acc)
    requires a.Valid() && |t| >= 3 && Sextet(t[0]) >= 0 && Sextet(t[1]) >= 0 && Sextet(t[2]) >= 0
    ensures Parse(t, a) == Parse(t[3..], a.Push(Sextet(t[0])).Push(Sextet(t[1])).Push(Sextet(t[2])))
  {
    hide Sextet, Parse, Acc.Push;
    ParseTwo(t, a);
    ParseDigit(t[2..], a.Push(Sextet(t[0])).Push(Sextet(t[1])));
    assert t[2..][1..] == t[3..];
  }

  lemma ParseFour(t: string, a: Acc)
    requires a.Valid() && a.phase == 0 && |t| >= 4
    requires Sextet(t[0]) >= 0 && Sextet(t[1]) >= 0 && Sextet(t[2]) >= 0 && Sextet(t[3]) >= 0
    ensures Parse(t, a) == Parse(t[4..], a.Group(Triple(Sextet(t[0]), Sextet(t[1]), Sextet(t[2]), Sextet(t[3]))))
  {
    hide Sextet, Parse, Acc.Push;
    ParseThree(t, a);
    ParseDigit(t[3..], a.Push(Sextet(t[0])).Push(Sextet(t[1])).Push(Sextet(t[2])));
    assert t[3..][1..] == t[4..];
    PushFour(a, Sextet(t[0]), Sextet(t[1]), Sextet(t[2]), Sextet(t[3]));
  }

  lemma TripleOfBytes(b0: byte, b1: byte, b2: byte)
    ensures Triple(b0 / 4, b0 % 4 * 16 + b1 / 16, b1 % 16 * 4 + b2 / 64, b2 % 64) == [b0, b1, b2]
  {
    Split(b0 % 4, b1 / 16, 16);
    Split(b1 % 16, b2 / 64, 4);
    assert b1 / 16 * 16 + b1 % 16 == b1 && b2 / 64 * 64 + b2 % 64 == b2;
  }

  /** The two parts of a sextet that joins bits of two bytes. */
  lemma Split(high: nat, low: nat, base: nat)
    requires base == 16 || base == 4
    requires low < base
    ensures (high * base + low) / base == high && (high * base + low) % base == low
  {
  }

  lemma ParseLastOne(x: seq<byte>, a: Acc)
    requires a.Valid() && a.phase == 0 && |x| == 1
    ensures Parse(Quantum(x), a) == Some(a.out + x)
  {
    hide Sextet, Acc.Push;
    var q := Quantum(x);
    QuantumDigits(x);
    ParseTwo(q, a);
    PushFour(a, Sextet(q[0]), Sextet(q[1]), 0, 0);
    assert q[2..] == "==";
    TripleOfBytes(x[0], 0, 0);
    assert Triple(Sextet(q[0]), Sextet(q[1]), 0, 0)[..1] == x;
  }

  lemma ParseLastTwo(x: seq<byte>, a: Acc)
    requires a.Valid() && a.phase == 0 && |x| == 2
    ensures Parse(Quantum(x), a) == Some(a.out + x)
  {
    hide Sextet, Acc.Push;
    var q := Quantum(x);
    QuantumDigits(x);
    ParseThree(q, a);
    PushFour(a, Sextet(q[0]), Sextet(q[1]), Sextet(q[2]), 0);
    assert q[3..] == "=";
    TripleOfBytes(x[0], x[1], 0);
    assert Triple(Sextet(q[0]), Sextet(q[1]), Sextet(q[2]), 0)[..2] == x;
  }

  lemma ParseNothing(a: Acc)
    requires a.Valid() && a.phase == 0
    ensures Parse([], a) == Some(a.out) && Encode([]) == [] && a.out + [] == a.out
  {
  }

  /** Parsing the text of `x` up to the end of its first three bytes. */
  lemma ParseGroup(x: seq<byte>, a: Acc)
    requires a.Valid() && a.phase == 0 && |x| >= 3
    ensures Parse(Encode(x), a) == Parse(Encode(x[3..]), a.Group(x[..3]))
  {
    hide Sextet, Parse, Quantum, Encode, Triple;
    var q, t := Quantum(x[..3]), Encode(x);
    EncodeNext(x);
    QuantumTriple(x[..3]);
    assert t[0] == q[0] && t[1] == q[1] && t[2] == q[2] && t[3] == q[3];
    assert t[4..] == Encode(x[3..]);
    ParseFour(t, a);
  }

  lemma QuantumTriple(x: seq<byte>)
    requires |x| == 3
    ensures var q := Quantum(x);
            && Sextet(q[0]) >= 0 && Sextet(q[1]) >= 0 && Sextet(q[2]) >= 0 && Sextet(q[3]) >= 0
            && Triple(Sextet(q[0]), Sextet(q[1]), Sextet(q[2]), Sextet(q[3])) == x
  {
    hide Sextet, Quantum, Triple;
    QuantumDigits(x);
    TripleOfBytes(x[0], x[1], x[2]);
    assert x == [x[0], x[1], x[2]];
  }

  /** Decoding inverts encoding. */
  lemma {:induction false} ParseEncoded(x: seq<byte>, a: Acc)
    requires a.Valid() && a.phase == 0
    ensures Parse(Encode(x), a) == Some(a.out + x)
    decreases |x|
  {
    hide Parse, Encode, Quantum;
    if x == [] {
      ParseNothing(a);
    } else if |x| == 1 {
      EncodeLast(x);
      ParseLastOne(x, a);
    } else if |x| == 2 {
      EncodeLast(x);
      ParseLastTwo(x, a);
    } else {
      ParseGroup(x, a);
      ParseEncoded(x[3..], a.Group(x[..3]));
      assert a.out + x[..3] + x[3..] == a.out + x;
    }
  }

  lemma BytesOfTriple(c0: sextet, c1: sextet, c2: sextet, c3: sextet)
    ensures var x := Triple(c0, c1, c2, c3);
            && x[0] / 4 == c0 && x[0] % 4 * 16 + x[1] / 16 == c1
            && x[1] % 16 * 4 + x[2] / 64 == c2 && x[2] % 64 == c3
  {
  }

  /** Only canonical text is accepted: right padding, and no bits behind the last full byte. */
  lemma {:induction false} ParsedIsEncoded(t: string, a: Acc) returns (x: seq<byte>)
    requires a.Valid() && a.phase == 0 && Parse(t, a).Some?
    ensures t == Encode(x) && Parse(t, a).value == a.out + x
    decreases |t|
  {
    hide Parse, Encode, Sextet, Triple, Acc.Push;
    if t == [] {
      x := [];
      ParseNothing(a);
    } else {
      GroupComplete(t, a);
      if t[2] == PAD {
        assert t[2..] == "==";
        LastOne(t, a);
        x := [4 * Sextet(t[0]) + Sextet(t[1]) / 16];
      } else if t[3] == PAD {
        x := LastTwo(t, a);
      } else {
        var g := Triple(Sextet(t[0]), Sextet(t[1]), Sextet(t[2]), Sextet(t[3]));
        ParseFour(t, a);
        var rest := ParsedIsEncoded(t[4..], a.Group(g));
        x := g + rest;
        JoinGroup(t, rest);
        assert a.out + g + rest == a.out + x;
      }
    }
  }

  lemma JoinGroup(t: string, rest: seq<byte>)
    requires |t| >= 4 && Sextet(t[0]) >= 0 && Sextet(t[1]) >= 0 && Sextet(t[2]) >= 0 && Sextet(t[3]) >= 0
    requires t[4..] == Encode(rest)
    ensures t == Encode(Triple(Sextet(t[0]), Sextet(t[1]), Sextet(t[2]), Sextet(t[3])) + rest)
  {
    hide Encode, Sextet, Quantum;
    var g := Triple(Sextet(t[0]), Sextet(t[1]), Sextet(t[2]), Sextet(t[3]));
    var x := g + rest;
    assert x[..3] == g && x[3..] == rest;
    EncodeNext(x);
    TripleQuantum(t[..4]);
    assert t == t[..4] + t[4..];
  }

  /** An accepted text has whole groups, with padding only in the last two places of the last. */
  lemma GroupComplete(t: string, a: Acc)
    requires a.Valid() && a.phase == 0 && t != [] && Parse(t, a).Some?
    ensures |t| >= 4 && Sextet(t[0]) >= 0 && Sextet(t[1]) >= 0
    ensures t[2] == PAD || Sextet(t[2]) >= 0
    ensures t[2] == PAD ==> |t| == 4 && t[3] == PAD && a.Push(Sextet(t[0])).Push(Sextet(t[1])).slop == 0
    ensures t[2] != PAD ==> t[3] == PAD || Sextet(t[3]) >= 0
    ensures t[2] != PAD && t[3] == PAD ==>
              |t| == 4 && a.Push(Sextet(t[0])).Push(Sextet(t[1])).Push(Sextet(t[2])).slop == 0
  {
    hide Sextet;
    assert Sextet(t[0]) >= 0;
    ParseDigit(t, a);
    var a1 := a.Push(Sextet(t[0]));
    assert |t| >= 2 && t[1..] != [] && t[1..][0] == t[1] && Sextet(t[1]) >= 0;
    ParseTwo(t, a);
    var a2 := a1.Push(Sextet(t[1]));
    assert |t| >= 3 && t[2..][0] == t[2];
    if t[2] == PAD {
      assert t[2..] == "==";
      assert t[3] == t[2..][1];
    } else {
      ParseThree(t, a);
      assert |t| >= 4 && t[3..][0] == t[3];
    }
  }

  lemma LastOne(t: string, a: Acc)
    requires a.Valid() && a.phase == 0 && |t| == 4 && t[2..] == "=="
    requires Sextet(t[0]) >= 0 && Sextet(t[1]) >= 0 && a.Push(Sextet(t[0])).Push(Sextet(t[1])).slop == 0
    ensures var x := [4 * Sextet(t[0]) + Sextet(t[1]) / 16];
            t == Encode(x) && Parse(t, a) == Some(a.out + x)
  {
    hide Sextet, Encode, Parse;
    var c0, c1 := Sextet(t[0]), Sextet(t[1]);
    var x := [4 * c0 + c1 / 16];
    assert c1 % 16 == 0 by { PushFour(a, c0, c1, 0, 0); }
    EncodeLast(x);
    assert t[2] == t[2..][0] && t[3] == t[2..][1];
    assert t == Quantum(x);
    ParseLastOne(x, a);
  }

  lemma LastTwo(t: string, a: Acc) returns (x: seq<byte>)
    requires a.Valid() && a.phase == 0 && |t| == 4 && t[3] == PAD
    requires Sextet(t[0]) >= 0 && Sextet(t[1]) >= 0 && Sextet(t[2]) >= 0
    requires a.Push(Sextet(t[0])).Push(Sextet(t[1])).Push(Sextet(t[2])).slop == 0
    ensures t == Encode(x) && Parse(t, a) == Some(a.out + x)
  {
    hide Sextet, Encode, Parse;
    var c0, c1, c2 := Sextet(t[0]), Sextet(t[1]), Sextet(t[2]);
    assert c2 % 4 == 0 by { PushFour(a, c0, c1, c2, 0); }
    x := Triple(c0, c1, c2, 0)[..2];
    BytesOfTriple(c0, c1, c2, 0);
    EncodeLast(x);
    assert t == Quantum(x);
    ParseLastTwo(x, a);
  }

  lemma TripleQuantum(t: string)
    requires |t| == 4 && Sextet(t[0]) >= 0 && Sextet(t[1]) >= 0 && Sextet(t[2]) >= 0 && Sextet(t[3]) >= 0
    ensures Quantum(Triple(Sextet(t[0]), Sextet(t[1]), Sextet(t[2]), Sextet(t[3]))) == t
  {
    hide Sextet;
    BytesOfTriple(Sextet(t[0]), Sextet(t[1]), Sextet(t[2]), Sextet(t[3]));
  }

  /** Target bytes needed to decode to `n` bytes. */
  function Room(n: nat): nat {
    if n % 3 == 0 then n else n + 1
  }

  lemma {:induction false} Growth(t: string, a: Acc)
    requires a.Valid()
    ensures Parse(t, a).Some? ==> a.Needed() <= Room(|Parse(t, a).value|)
    decreases |t|
  {
    hide Sextet;
    if t != [] && t[0] != PAD && Sextet(t[0]) >= 0 {
      Growth(t[1..], a.Push(Sextet(t[0])));
    }
  }

  lemma StripHead(s: string)
    ensures s == [] ==> Strip(s) == []
    ensures s != [] && Space(s[0]) ==> Strip(s) == Strip(s[1..])
    ensures s != [] && !Space(s[0]) ==> Strip(s) == [s[0]] + Strip(s[1..])
  {
  }

  /** One step of Parse on a character that is not whitespace and not the pad. */
  lemma ParseHead(c: char, t: string, a: Acc)
    requires a.Valid() && c != PAD
    ensures Sextet(c) < 0 ==> Parse([c] + t, a) == None
    ensures Sextet(c) >= 0 ==> Parse([c] + t, a) == Parse(t, a.Push(Sextet(c)))
  {
    hide Sextet;
    assert ([c] + t)[1..] == t;
  }

  lemma ParseEnd(t: string, a: Acc)
    requires a.Valid() && (t == [] || t[0] == PAD)
    ensures t == [] ==> Parse(t, a) == if a.phase == 0 then Some(a.out) else None
    ensures var accepted := a.slop == 0 && ((a.phase == 2 && t == "==") || (a.phase == 3 && t == "="));
            t != [] ==> Parse(t, a) == if accepted then Some(a.out) else None
  {
  }

  /** The switch on `state`: shift one value into the target, if it has room. */
  method StoreSextet(target: array<byte>, v: sextet, tarindex: nat, state: nat, ghost a: Acc) returns (ok: bool)
    requires a.Valid() && state == a.phase && tarindex == |a.out| && a.Needed() <= target.Length
    requires target[..tarindex] == a.out && (state != 0 ==> target[tarindex] == a.slop)
    modifies target
    ensures ok <==> a.Push(v).Needed() <= target.Length
    ensures ok ==> target[..|a.Push(v).out|] == a.Push(v).out
    ensures ok && a.Push(v).phase != 0 ==> target[|a.Push(v).out|] == a.Push(v).slop
  {
    hide Or;
    match state {
      case 0 =>
        if tarindex >= target.Length { return false; }
        target[tarindex] := 4 * v;
      case 1 =>
        if tarindex + 1 >= target.Length { return false; }
        OrTwo(a.slop / 4, v / 16);
        target[tarindex] := Or(target[tarindex], v / 16);
        target[tarindex + 1] := v % 16 * 16;
      case 2 =>
        if tarindex + 1 >= target.Length { return false; }
        OrFour(a.slop / 16, v / 4);
        target[tarindex] := Or(target[tarindex], v / 4);
        target[tarindex + 1] := v % 4 * 64;
      case _ =>
        if tarindex >= target.Length { return false; }
        OrSix(a.slop / 64, v);
        target[tarindex] := Or(target[tarindex], v);
    }
    ok := true;
  }

  /** What may follow the first pad character, which is s[0]. */
  method CheckPadding(s: string, state: nat) returns (ok: bool)
    requires s != [] && s[0] == PAD
    ensures ok <==> (state == 2 && Strip(s) == "==") || (state == 3 && Strip(s) == "=")
  {
    hide Strip;
    StripHead(s);
    if state != 2 && state != 3 {
      return false;
    }
    var j := 1;
    if state == 2 {
      j := SkipSpaces(s, 1);
      StripHead(s[j..]);
      if j == |s| || s[j] != PAD {
        assert j < |s| ==> Strip(s)[1] == s[j];
        return false;
      }
      assert s[j..][1..] == s[j + 1..];
      j := j + 1;
    }
    var k := SkipSpaces(s, j);
    StripHead(s[k..]);
    ok := k == |s|;
  }

  method SkipSpaces(s: string, from: nat) returns (j: nat)
    requires from <= |s|
    ensures from <= j <= |s| && (j < |s| ==> !Space(s[j]))
    ensures Strip(s[from..]) == Strip(s[j..])
  {
    hide Strip;
    j := from;
    while j < |s| && Space(s[j])
      invariant from <= j <= |s| && Strip(s[from..]) == Strip(s[j..])
    {
      StripHead(s[j..]);
      assert s[j..][1..] == s[j + 1..];
      j := j + 1;
    }
  }

  /** b64_pton: whitespace is skipped, digits are shifted into `target`, and what follows the first
      pad character must complete the group and end the text.

      It succeeds with the bytes `x` exactly when the text without whitespace is the encoding of
      `x` and the target has room for `x` and, if the last group is padded, for the byte that
      collects the leftover bits. */
  method Pton(src: string, target: array<byte>) returns (n: int)
    modifies target
    ensures -1 <= n <= target.Length
    ensures n != -1 ==> Strip(src) == Encode(target[..n]) && Room(n) <= target.Length
    ensures n == -1 ==> forall x :: Strip(src) == Encode(x) ==> target.Length < Room(|x|)
  {
    hide Parse, Encode, Acc.Push, Or, Sextet, Strip;
    var i, tarindex, state := 0, 0, 0;
    ghost var acc := START;
    assert src[0..] == src;
    ghost var goal := Parse(Strip(src), START);
    assert forall x :: Strip(src) == Encode(x) ==> goal == Some(x) by { OnlyMeaning(Strip(src)); }
    while i < |src| && src[i] != PAD
      invariant 0 <= i <= |src| && acc.Valid() && goal == Parse(Strip(src[i..]), acc)
      invariant state == acc.phase && tarindex == |acc.out| && acc.Needed() <= target.Length
      invariant target[..tarindex] == acc.out && (state != 0 ==> target[tarindex] == acc.slop)
    {
      StripHead(src[i..]);
      assert src[i..][1..] == src[i + 1..];
      if !Space(src[i]) {
        var v := Sextet(src[i]);
        ParseHead(src[i], Strip(src[i + 1..]), acc);
        if v < 0 {
          return -1;
        }
        Growth(Strip(src[i + 1..]), acc.Push(v));
        var ok := StoreSextet(target, v, tarindex, state, acc);
        if !ok {
          return -1;
        }
        PushShape(acc, v);
        acc := acc.Push(v);
        tarindex, state := if state == 0 then tarindex else tarindex + 1, (state + 1) % 4;
      }
      i := i + 1;
    }
    StripHead(src[i..]);
    ParseEnd(Strip(src[i..]), acc);
    if i == |src| {
      if state != 0 {
        return -1;
      }
    } else {
      var padded := CheckPadding(src[i..], state);
      if !padded || target[tarindex] != 0 {
        return -1;
      }
    }
    n := tarindex;
    ghost var x := ParsedIsEncoded(Strip(src), START);
    assert START.out + x == x;
  }

  lemma PushShape(a: Acc, v: sextet)
    requires a.Valid()
    ensures a.Push(v).phase == (a.phase + 1) % 4
    ensures |a.Push(v).out| == if a.phase == 0 then |a.out| else |a.out| + 1
  {
  }

  lemma OnlyMeaning(t: string)
    ensures forall x :: t == Encode(x) ==> Parse(t, START) == Some(x)
  {
    hide Parse, Encode;
    forall x | t == Encode(x)
      ensures Parse(t, START) == Some(x)
    {
      ParseEncoded(x, START);
      assert [] + x == x;
    }
  }

  /** Different byte strings have different texts. */
  lemma EncodeInjective(x: seq<byte>, y: seq<byte>)
    requires Encode(x) == Encode(y)
    ensures x == y
  {
    OnlyMeaning(Encode(x));
  }
}
