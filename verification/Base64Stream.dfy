/** uuencode -m and the line-by-line decoder of uudecode -m. */
module Base64Stream {
  import opened Bytes
  import opened Options
  import opened Base64

  const GROUPS := 80 / 4 - 1
  const MAXPATHLEN := 1024
  const INBUF := MAXPATHLEN + 1     // sizeof(inbuf)
  const OUTBUF := MAXPATHLEN * 4    // sizeof(outbuf)

  // ----- text broken into lines -----

  /** `s` is the text `e` with whitespace anywhere, ended by a newline. */
  ghost predicate Broken(s: string, e: string) {
    Strip(s) == e && (s != [] ==> s[|s| - 1] == '\n')
  }

  /** No empty lines, and no whitespace but the newlines. */
  ghost predicate Lines(s: string) {
    && (s != [] ==> s[0] != '\n' && s[|s| - 1] == '\n')
    && (forall i :: 0 <= i < |s| ==> Space(s[i]) ==> s[i] == '\n')
    && (forall i :: 0 <= i < |s| - 1 ==> s[i] == '\n' ==> s[i + 1] != '\n')
  }

  // ----- encoding -----

  /** `Lines` except that the last line may still be open. */
  ghost predicate OpenLines(s: string) {
    && (s != [] ==> s[0] != '\n')
    && (forall i :: 0 <= i < |s| ==> Space(s[i]) ==> s[i] == '\n')
    && (forall i :: 0 <= i < |s| - 1 ==> s[i] == '\n' ==> s[i + 1] != '\n')
  }

  lemma QuantumHasNoSpace(x: seq<byte>)
    requires 1 <= |x| <= 3
    ensures forall i :: 0 <= i < 4 ==> !Space(Quantum(x)[i])
  {
    hide Digit;
    var b1 := if |x| > 1 then x[1] else 0;
    var b2 := if |x| > 2 then x[2] else 0;
    SextetOfDigit(x[0] / 4);
    SextetOfDigit(x[0] % 4 * 16 + b1 / 16);
    SextetOfDigit(b1 % 16 * 4 + b2 / 64);
    SextetOfDigit(b2 % 64);
  }

  lemma {:induction false} StripNothing(s: string)
    requires forall i :: 0 <= i < |s| ==> !Space(s[i])
    ensures Strip(s) == s
  {
    if s != [] {
      StripNothing(s[1..]);
    }
  }

  /** base64_encode between the "begin-base64" and "====" lines: three bytes at a time, a newline
      after every nineteen groups and after a last shorter line. */
  method EncodeLines(x: seq<byte>) returns (body: string)
    ensures Broken(body, Encode(x)) && Lines(body)
    ensures forall i :: 0 <= i < |body| ==> (body[i] == '\n' <==> i % 77 == 76 || i == |body| - 1)
  {
    hide Encode, Quantum, Strip, Columns;
    var at, sequence := 0, 0;
    body := [];
    NoColumns();
    EncodeNothing([]);
    StripHead([]);
    assert x[..0] == [];
    while at < |x|
      invariant 0 <= at <= |x| && (at == |x| || at == 3 * sequence)
      invariant OpenLines(body) && Strip(body) == Encode(x[..at])
      invariant body != [] <==> sequence > 0
      invariant sequence % GROUPS == 0 && body != [] ==> body[|body| - 1] == '\n'
      invariant sequence % GROUPS != 0 ==> body[|body| - 1] != '\n'
      invariant Columns(body, sequence)
    {
      var n := if |x| - at < 3 then |x| - at else 3;
      var buf := x[at..at + n];
      sequence := sequence + 1;
      var buf2 := new char[7];
      var rv := Ntop(buf, buf2);
      EncodeLast(buf);
      QuantumHasNoSpace(buf);
      var group := buf2[..rv];
      assert group == Quantum(buf);
      StripNothing(group);
      EncodeAppend(x, at, n);
      StripAppend(body, group);
      ghost var before := body;
      body := body + group;
      if sequence % GROUPS == 0 {
        NewlineVanishes(body);
        body := body + "\n";
      }
      MoreColumns(before, sequence - 1, group, body);
      at := at + n;
    }
    ColumnsOf(body, sequence);
    if sequence % GROUPS != 0 {
      NewlineVanishes(body);
      body := body + "\n";
    }
    assert x[..|x|] == x;
  }

  /** `groups` groups have been written, nineteen to a line, and so every newline ends a line of 76
      characters. */
  ghost predicate Columns(body: string, groups: nat) {
    && |body| == 4 * groups + groups / 19
    && forall i :: 0 <= i < |body| ==> (body[i] == '\n' <==> i % 77 == 76)
  }

  lemma NoColumns()
    ensures Columns("", 0)
  {
  }

  lemma ColumnsOf(body: string, groups: nat)
    requires Columns(body, groups)
    ensures forall i :: 0 <= i < |body| ==> (body[i] == '\n' <==> i % 77 == 76)
    ensures groups % 19 == 0 && body != [] ==> body[|body| - 1] == '\n'
  {
    var q := groups / 19;
    assert groups % 19 == 0 ==> |body| == 77 * q;
  }

  lemma MoreColumns(before: string, groups: nat, group: string, after: string)
    requires Columns(before, groups) && |group| == 4 && forall i :: 0 <= i < 4 ==> group[i] != '\n'
    requires after == before + group + if (groups + 1) % 19 == 0 then "\n" else ""
    ensures Columns(after, groups + 1)
  {
    var q, r := groups / 19, groups % 19;
    if r == 18 {
      DividedBy(groups + 1, 19, q + 1, 0);
    } else {
      DividedBy(groups + 1, 19, q, r + 1);
    }
    forall i | |before| <= i < |after| ensures after[i] == '\n' <==> i % 77 == 76 {
      var d := i - |before|;
      DividedBy(i, 77, q, 4 * r + d);
    }
  }

  lemma EncodeAppend(x: seq<byte>, at: nat, n: nat)
    requires at % 3 == 0 && 1 <= n <= 3 && at + n <= |x|
    ensures Encode(x[..at + n]) == Encode(x[..at]) + Encode(x[at..at + n])
  {
    hide Encode;
    var y := x[..at + n];
    EncodePrefix(y, at / 3);
    assert y[..at] == x[..at] && y[at..] == x[at..at + n];
  }

  lemma NewlineVanishes(s: string)
    ensures Strip(s + "\n") == Strip(s)
  {
    StripAppend(s, "\n");
    assert Strip("\n") == [];
  }

  // ----- decoding -----

  /** How uudecode leaves a file; OutOfRange belongs to the traditional format. */
  datatype Outcome = ShortFile | RawEnd | NoEnd | Finished | Stuck | OutOfRange

  /** isalnum or one of + / = */
  predicate Counted(c: char) {
    'A' <= c <= 'Z' || 'a' <= c <= 'z' || '0' <= c <= '9' || c == '+' || c == '/' || c == '='
  }

  /** The digits of Base64 and the padding. */
  lemma CountedAreDigits(c: char)
    ensures Counted(c) <==> c in ALPHABET || c == '='
  {
    hide ALPHABET;
    SextetIsIndex(c);
  }

  function Count(s: string): nat {
    if s == [] then 0 else Count(s[..|s| - 1]) + if Counted(s[|s| - 1]) then 1 else 0
  }

  /** The string in a buffer: up to the first NUL. */
  function CString(s: string): (r: string)
    ensures r <= s
    ensures '\0' !in s ==> r == s
  {
    if s == [] || s[0] == '\0' then [] else [s[0]] + CString(s[1..])
  }

  /** Where a line that starts at `pos` ends when at most `room` characters are read. */
  function LineEnd(text: string, pos: nat, room: nat): (end: nat)
    requires pos <= |text|
    ensures pos <= end <= |text| && end - pos <= room && (pos < |text| && room > 0 ==> pos < end)
    ensures forall i :: pos <= i < end - 1 ==> text[i] != '\n'
    ensures end == |text| || end - pos == room || (pos < end && text[end - 1] == '\n')
    decreases room
  {
    if pos == |text| || room == 0 then pos
    else if text[pos] == '\n' then pos + 1
    else LineEnd(text, pos + 1, room - 1)
  }

  /** fgets(buf, size, infp) with the stream at `pos`: up to size - 1 characters, up to and
      including a newline. */
  method Fgets(text: string, pos: nat, size: nat) returns (end: nat)
    requires pos <= |text| && 1 <= size
    ensures end == LineEnd(text, pos, size - 1)
  {
    end := pos;
    while end < |text| && end - pos < size - 1
      invariant pos <= end <= |text| && end - pos <= size - 1
      invariant LineEnd(text, pos, size - 1) == LineEnd(text, end, size - 1 - (end - pos))
    {
      end := end + 1;
      if text[end - 1] == '\n' {
        return;
      }
    }
  }

  /** Just behind the last place at which the number of Base64 characters is a multiple of four. */
  function Cut(s: string): (cut: nat)
    ensures cut <= |s| && Count(s[..cut]) % 4 == 0
    ensures forall j :: cut < j <= |s| ==> Count(s[..j]) % 4 != 0
  {
    assert s[..|s|] == s;
    if Count(s) % 4 == 0 then |s|
    else
      var init := s[..|s| - 1];
      assert forall j :: 0 <= j <= |init| ==> init[..j] == s[..j];
      Cut(init)
  }

  /** The scan for count4, which is one less than the cut. */
  method FindCut(s: string) returns (cut: nat)
    ensures cut == Cut(s)
  {
    hide Counted, Cut;
    var count := 0;
    cut := 0;
    assert s[..0] == [];
    for p := 0 to |s|
      invariant count == Count(s[..p]) && cut <= p && Count(s[..cut]) % 4 == 0
      invariant forall j :: cut < j <= p ==> Count(s[..j]) % 4 != 0
    {
      assert s[..p + 1][..p] == s[..p] && s[..p + 1][p] == s[p];
      if Counted(s[p]) {
        count := count + 1;
      }
      if count % 4 == 0 {
        cut := p + 1;
      }
    }
    CutIsUnique(s, cut);
  }

  lemma CutIsUnique(s: string, cut: nat)
    requires cut <= |s| && Count(s[..cut]) % 4 == 0
    requires forall j :: cut < j <= |s| ==> Count(s[..j]) % 4 != 0
    ensures cut == Cut(s)
  {
    hide Counted, Count;
    var c := Cut(s);
    assert Count(s[..c]) % 4 == 0;
  }

  /** checkend: `end` followed by nothing but blanks. */
  predicate EndsWith(s: string, end: string) {
    end <= s && forall i :: |end| <= i < |s| ==> s[i] == ' ' || s[i] == '\t' || s[i] == '\r' || s[i] == '\n'
  }

  /** Behind `end` there are only blanks, tabs, carriage returns and newlines. */
  lemma EndsWithExactly(s: string, end: string)
    ensures EndsWith(s, end) <==>
            exists t: string :: s == end + t && forall i :: 0 <= i < |t| ==> t[i] as int in {32, 9, 13, 10}
  {
    if end <= s {
      assert s == end + s[|end|..];
    }
    if EndsWith(s, end) {
      var t := s[|end|..];
      assert s == end + t && forall i :: 0 <= i < |t| ==> t[i] as int in {32, 9, 13, 10};
    }
  }

  /** What b64_pton makes of a buffer, with a target of OUTBUF bytes. */
  ghost function Meaning(s: string): Option<seq<byte>> {
    var x := Parse(Strip(s), START);
    if x.Some? && Room(|x.value|) <= OUTBUF then x else None
  }

  lemma MeaningOfEncoding(s: string, x: seq<byte>)
    requires Strip(s) == Encode(x)
    ensures Meaning(s) == if Room(|x|) <= OUTBUF then Some(x) else None
  {
    hide Parse, Encode, Strip, Room;
    OnlyMeaning(Strip(s));
  }

  lemma MeaningIsEncoding(s: string)
    ensures Meaning(s).Some? ==> Strip(s) == Encode(Meaning(s).value)
  {
    hide Parse, Encode, Strip, Room;
    if Meaning(s).Some? {
      var x := ParsedIsEncoded(Strip(s), START);
      assert [] + x == x;
    }
  }

  /** What b64_pton's contract says of `s` determines the result. */
  lemma PtonMeaning(s: string, n: int, target: seq<byte>)
    requires -1 <= n <= |target| == OUTBUF
    requires n != -1 ==> Strip(s) == Encode(target[..n]) && Room(n) <= OUTBUF
    requires n == -1 ==> forall x :: Strip(s) == Encode(x) ==> OUTBUF < Room(|x|)
    ensures Meaning(s) == if n == -1 then None else Some(target[..n])
  {
    hide Meaning, Encode, Strip, Room;
    if n != -1 {
      MeaningOfEncoding(s, target[..n]);
    } else if Meaning(s).Some? {
      MeaningIsEncoding(s);
      MeaningOfEncoding(s, Meaning(s).value);
    }
  }

  /** The bytes written and how the decoder ended. */
  datatype Decoded = Decoded(out: seq<byte>, outcome: Outcome) {
    function After(more: seq<byte>): Decoded {
      Decoded(more + out, outcome)
    }
  }

  /** uudecode -m on any text, from position `pos` with a leftover in the buffer: lines are appended
      to the leftover, what stands before the cut is decoded, and the rest is left over.  A leftover
      that fills the buffer keeps the original from ever reading on. */
  ghost function Streamed(text: string, rflag: bool, leftover: string, pos: nat): Decoded
    requires pos <= |text|
    decreases |text| - pos
  {
    if INBUF < |leftover| + 2 then Decoded([], Stuck)
    else
      var end := LineEnd(text, pos, INBUF - |leftover| - 1);
      if end == pos then Decoded([], if rflag then RawEnd else ShortFile)
      else
        var buf := leftover + CString(text[pos..end]);
        var chunk := buf[..Cut(buf)];
        match Meaning(chunk)
        case None => Decoded([], if EndsWith(chunk, "====") then Finished else NoEnd)
        case Some(y) => Streamed(text, rflag, buf[Cut(buf)..], end).After(y)
  }

  lemma StreamedStep(text: string, rflag: bool, leftover: string, pos: nat)
    requires pos <= |text|
    ensures INBUF < |leftover| + 2 ==> Streamed(text, rflag, leftover, pos) == Decoded([], Stuck)
    ensures |leftover| + 2 <= INBUF ==>
              var end := LineEnd(text, pos, INBUF - |leftover| - 1);
              var buf := leftover + CString(text[pos..end]);
              var chunk := buf[..Cut(buf)];
              Streamed(text, rflag, leftover, pos) ==
              if end == pos then Decoded([], if rflag then RawEnd else ShortFile)
              else if Meaning(chunk).None? then Decoded([], if EndsWith(chunk, "====") then Finished else NoEnd)
              else Streamed(text, rflag, buf[Cut(buf)..], end).After(Meaning(chunk).value)
  {
    hide LineEnd, CString, Cut, Meaning, EndsWith;
  }

  /** base64_decode on the stream `text`; `rflag` is the -r option. */
  method DecodeLines(text: string, rflag: bool) returns (out: seq<byte>, outcome: Outcome)
    ensures Decoded(out, outcome) == Streamed(text, rflag, "", 0)
  {
    hide LineEnd, CString, Cut, Meaning, EndsWith, Streamed, Encode, Strip, Room;
    var leftover, pos := "", 0;
    out := [];
    ghost var all := Streamed(text, rflag, "", 0);
    assert all.After([]) == all by { assert [] + all.out == all.out; }
    while true
      invariant 0 <= pos <= |text| && |leftover| < INBUF
      invariant Streamed(text, rflag, leftover, pos).After(out) == all
      decreases |text| - pos
    {
      StreamedStep(text, rflag, leftover, pos);
      assert out + [] == out;
      var inbuf := leftover;
      if INBUF - |inbuf| < 2 {
        return out, Stuck;
      }
      var end := Fgets(text, pos, INBUF - |inbuf|);
      if end == pos {
        return out, if rflag then RawEnd else ShortFile;
      }
      inbuf := inbuf + CString(text[pos..end]);
      var cut := FindCut(inbuf);
      leftover, inbuf := inbuf[cut..], inbuf[..cut];
      var outbuf := new byte[OUTBUF](_ => 0);
      var n := Pton(inbuf, outbuf);
      PtonMeaning(inbuf, n, outbuf[..]);
      if n < 0 {
        return out, if EndsWith(inbuf, "====") then Finished else NoEnd;
      }
      assert n >= 0 && outbuf[..][..n] == outbuf[..n];
      AfterTwo(Streamed(text, rflag, leftover, end), out, outbuf[..n]);
      out, pos := out + outbuf[..n], end;
    }
  }

  lemma AfterTwo(d: Decoded, s: seq<byte>, t: seq<byte>)
    ensures d.After(t).After(s) == d.After(s + t)
  {
    assert s + (t + d.out) == s + t + d.out;
  }

  // ----- why the streaming decoder agrees with decoding at once -----

  ghost predicate BodyChars(s: string) {
    forall i :: 0 <= i < |s| ==> Space(s[i]) != Counted(s[i])
  }

  lemma {:induction false} CountIsStrip(s: string)
    requires BodyChars(s)
    ensures Count(s) == |Strip(s)|
  {
    hide Counted, Space;
    if s != [] {
      var init, last := s[..|s| - 1], s[|s| - 1..];
      CountIsStrip(init);
      StripAppend(init, last);
      assert init + last == s;
      StripHead(last);
      assert last[1..] == [];
      StripHead(last[1..]);
    }
  }

  lemma {:induction false} StripKeeps(s: string, i: nat)
    requires i < |s| && !Space(s[i])
    ensures s[i] in Strip(s)
  {
    if i > 0 {
      StripKeeps(s[1..], i - 1);
    }
  }

  lemma {:induction false} EncodedChars(x: seq<byte>)
    ensures forall c :: c in Encode(x) ==> Counted(c) && !Space(c)
  {
    hide Quantum, Counted;
    if 0 < |x| <= 3 {
      QuantumChars(x);
    } else if |x| > 3 {
      QuantumChars(x[..3]);
      EncodedChars(x[3..]);
    }
  }

  lemma QuantumChars(x: seq<byte>)
    requires 1 <= |x| <= 3
    ensures forall c :: c in Quantum(x) ==> Counted(c) && !Space(c)
  {
  }

  lemma BrokenChars(body: string, x: seq<byte>)
    requires Broken(body, Encode(x))
    ensures BodyChars(body)
  {
    hide Strip, Encode;
    EncodedChars(x);
    forall i | 0 <= i < |body|
      ensures Space(body[i]) != Counted(body[i])
    {
      if !Space(body[i]) {
        StripKeeps(body, i);
      }
    }
  }

  /** The bytes that the first `g` groups of the text stand for. */
  function Done(x: seq<byte>, g: nat): seq<byte> {
    if 3 * g <= |x| then x[..3 * g] else x
  }

  /** Groups `g` up to `h` of the encoding of `x` encode the bytes between. */
  lemma EncodeSlice(x: seq<byte>, g: nat, h: nat) returns (y: seq<byte>)
    requires g <= h && 4 * h <= |Encode(x)|
    ensures Encode(x)[4 * g..4 * h] == Encode(y) && Done(x, h) == Done(x, g) + y
    ensures Room(|y|) <= 3 * (h - g) + 1
  {
    hide Encode;
    EncodedLength(x);
    var e := Encode(x);
    if g == h {
      y := [];
      EncodeNothing(y);
      return;
    }
    EncodePrefix(x, g);
    EncodedLength(x[..3 * g]);
    assert e[4 * g..] == Encode(x[3 * g..]);
    var rest := x[3 * g..];
    if 3 * h <= |x| {
      y := rest[..3 * (h - g)];
      EncodePrefix(rest, h - g);
      EncodedLength(y);
      assert e[4 * g..4 * h] == e[4 * g..][..4 * (h - g)] == Encode(y);
      assert x[..3 * h] == x[..3 * g] + y;
    } else {
      y := rest;
      assert |e| == 4 * h;
      assert e[4 * g..4 * h] == e[4 * g..];
      assert x == x[..3 * g] + y;
    }
  }

  /** A leftover: at most three Base64 characters, the first one in front. */
  ghost predicate Small(s: string) {
    Count(s) < 4 && (s != [] ==> Counted(s[0]))
  }

  /** The decoder has consumed body[..pos], decoded body[..from] and keeps what is between. */
  ghost predicate Decoding(body: string, x: seq<byte>, from: nat, pos: nat, out: seq<byte>) {
    && from <= pos <= |body| && Broken(body, Encode(x))
    && Count(body[..from]) % 4 == 0 && out == Done(x, Count(body[..from]) / 4)
    && Small(body[from..pos])
  }

  lemma {:induction false} CountAppend(s: string, t: string)
    ensures Count(s + t) == Count(s) + Count(t)
  {
    hide Counted;
    if t == [] {
      assert s + t == s;
    } else {
      var init := t[..|t| - 1];
      assert (s + t)[..|s + t| - 1] == s + init;
      CountAppend(s, init);
    }
  }

  lemma {:induction false} CountStarts(s: string)
    requires s != [] && Counted(s[0])
    ensures Count(s) > 0
  {
    if |s| > 1 {
      CountStarts(s[..|s| - 1]);
    }
  }

  /** At the end of the body everything is decoded. */
  lemma AtEnd(body: string, x: seq<byte>, from: nat, out: seq<byte>)
    requires Decoding(body, x, from, |body|, out)
    ensures from == |body| && out == x
  {
    hide Counted, Strip, Encode, Count;
    BrokenChars(body, x);
    var tail := body[from..];
    assert body == body[..from] + tail && tail == body[from..|body|];
    CountAppend(body[..from], tail);
    CountIsStrip(body);
    EncodedLength(x);
    if tail != [] {
      CountStarts(tail);
    }
    assert body[..from] == body;
  }

  /** Behind the cut, counts stay between multiples of four. */
  lemma {:induction false} BehindCut(s: string, cut: nat, j: nat)
    requires cut <= j <= |s| && Count(s[..cut]) % 4 == 0
    requires forall i :: cut < i <= |s| ==> Count(s[..i]) % 4 != 0
    ensures Count(s[..cut]) <= Count(s[..j]) < Count(s[..cut]) + 4
  {
    hide Counted;
    if cut < j {
      BehindCut(s, cut, j - 1);
      assert s[..j][..j - 1] == s[..j - 1];
    }
  }

  lemma CutLeavesSmall(s: string)
    ensures Small(s[Cut(s)..])
  {
    hide Counted, Count, Cut;
    var cut := Cut(s);
    BehindCut(s, cut, |s|);
    assert s[..|s|] == s && s == s[..cut] + s[cut..];
    CountAppend(s[..cut], s[cut..]);
    if cut < |s| {
      assert Count(s[..cut + 1]) % 4 != 0;
      FirstCounted(s, cut);
    }
  }

  lemma FirstCounted(s: string, cut: nat)
    requires cut < |s| && Count(s[..cut]) % 4 == 0 && Count(s[..cut + 1]) % 4 != 0
    ensures Counted(s[cut])
  {
    assert s[..cut + 1][..cut] == s[..cut];
  }

  /** Reading on inside the body: the piece up to the cut decodes to the bytes it stands for. */
  lemma NextPiece(body: string, x: seq<byte>, from: nat, pos: nat, end: nat, out: seq<byte>)
    returns (y: seq<byte>)
    requires Decoding(body, x, from, pos, out) && pos <= end <= |body| && end - from < INBUF
    ensures from + Cut(body[from..end]) <= end
    ensures Meaning(body[from..from + Cut(body[from..end])]) == Some(y)
    ensures Decoding(body, x, from + Cut(body[from..end]), end, out + y)
  {
    hide Counted, Count, Encode, Strip, Done, Meaning, Cut, Small, Room;
    BrokenChars(body, x);
    var s := body[from..end];
    var cut := Cut(s);
    var c := from + cut;
    var chunk := body[from..c];
    SliceOfSlice(body, from, end, cut);
    CutLeavesSmall(s);
    assert body[..c] == body[..from] + chunk && body == body[..c] + body[c..];
    CountAppend(body[..from], chunk);
    CountIsStrip(body[..from]);
    CountIsStrip(body[..c]);
    StripAppend(body[..from], chunk);
    StripAppend(body[..c], body[c..]);
    var a, b := Count(body[..from]), Count(body[..c]);
    assert Strip(chunk) == Encode(x)[a..b];
    y := EncodeSlice(x, a / 4, b / 4);
    StripShrinks(chunk);
    RoomForChunk(|y|, b - a, |chunk|);
    MeaningOfEncoding(chunk, y);
  }

  lemma RoomForChunk(n: nat, digits: nat, length: nat)
    requires digits % 4 == 0 && digits <= length < INBUF && Room(n) <= 3 * (digits / 4) + 1
    ensures Room(n) <= OUTBUF
  {
  }

  lemma {:induction false} StripShrinks(s: string)
    ensures |Strip(s)| <= |s|
  {
    if s != [] {
      StripShrinks(s[1..]);
    }
  }

  lemma FourPadsAreNoText(y: seq<byte>)
    ensures Encode(y) != "===="
  {
    ParseEncoded(y, START);
  }

  /** The rest of the text behind the body: "====", blanks, and then a newline and anything, or the end
      of the file. */
  ghost predicate EndText(rest: string) {
    "====" <= rest && exists n: nat :: BlankUpTo(rest, n)
  }

  ghost predicate BlankUpTo(rest: string, n: nat) {
    && 4 <= n <= |rest| && (forall i :: 4 <= i < n ==> rest[i] == ' ' || rest[i] == '\t' || rest[i] == '\r')
    && (n == |rest| || rest[n] == '\n')
  }

  /** A line as fgets cuts it from there. */
  ghost predicate EndLine(s: string) {
    && |s| >= 4 && s[..4] == "===="
    && forall i :: 4 <= i < |s| ==> s[i] == ' ' || s[i] == '\t' || s[i] == '\r' || s[i] == '\n'
  }

  lemma {:induction false} BlanksVanish(s: string)
    requires forall i :: 0 <= i < |s| ==> Space(s[i]) && !Counted(s[i])
    ensures Strip(s) == [] && Count(s) == 0
  {
    if s != [] {
      BlanksVanish(s[..|s| - 1]);
      StripAppend(s[..|s| - 1], s[|s| - 1..]);
      assert s == s[..|s| - 1] + s[|s| - 1..];
      StripHead(s[|s| - 1..]);
      assert s[|s| - 1..][1..] == [];
    }
  }

  lemma EndLineIsCut(s: string)
    requires EndLine(s)
    ensures Cut(s) == |s| && s[..|s|] == s && Strip(s) == "====" && EndsWith(s, "====") && CString(s) == s
  {
    hide Cut, Strip, Count, CString, Counted, Space, EndLine, EndsWith;
    EndLineBlanks(s);
    FourPads();
    PaddedIsCut("====", s);
  }

  lemma PaddedIsCut(pads: string, s: string)
    requires |s| >= 4 && s == pads + s[4..] && Count(pads) == 4 && Strip(pads) == pads
    requires forall i :: 0 <= i < |s[4..]| ==> Space(s[4..][i]) && !Counted(s[4..][i])
    ensures Cut(s) == |s| && s[..|s|] == s && Strip(s) == pads
  {
    hide Cut, Strip, Count, Counted, Space;
    var t := s[4..];
    BlanksVanish(t);
    CountAppend(pads, t);
    StripAppend(pads, t);
    assert pads + [] == pads;
    assert s[..|s|] == s;
    CutIsUnique(s, |s|);
  }

  lemma EndLineBlanks(s: string)
    requires EndLine(s)
    ensures |s| >= 4 && s == "====" + s[4..] && EndsWith(s, "====") && CString(s) == s
    ensures forall i :: 0 <= i < |s[4..]| ==> Space(s[4..][i]) && !Counted(s[4..][i])
  {
    hide CString;
    assert s == s[..4] + s[4..];
    forall i | 0 <= i < |s| ensures s[i] != '\0' {
      assert i < 4 ==> s[i] == s[..4][i] == '=';
    }
  }

  lemma FourPads()
    ensures Count("====") == 4 && Strip("====") == "===="
  {
    assert "===="[..3] == "===" && "==="[..2] == "==" && "=="[..1] == "=" && "="[..0] == "";
    assert Count("==") == 2;
    StripNothing("====");
  }

  /** The "====" line stops the decoder. */
  lemma EndPiece(text: string, rest: string, rflag: bool, body: string, x: seq<byte>, from: nat, out: seq<byte>)
    requires text == body + rest && EndText(rest) && Decoding(body, x, from, |body|, out)
    ensures from == |body| && out == x && Streamed(text, rflag, body[from..|body|], |body|) == Decoded([], Finished)
  {
    hide Encode, Strip, Count, Counted, Decoding, EndsWith, Cut, Meaning, Streamed, LineEnd, CString, EndText, EndLine;
    AtEnd(body, x, from, out);
    var end := LineEnd(text, |body|, INBUF - 1);
    StartsWithPads(rest);
    LineBehind(text, rest, body, end);
    EndPrefix(rest);
    var line := rest[..end - |body|];
    assert body[from..|body|] + line == line;
    EndLineIsCut(line);
    assert Meaning(line) == None by {
      MeaningIsEncoding(line);
      if Meaning(line).Some? {
        FourPadsAreNoText(Meaning(line).value);
      }
    }
    StreamedStep(text, rflag, "", |body|);
  }

  /** The line that starts behind `body` is the first line of `rest`. */
  lemma LineBehind(text: string, rest: string, body: string, end: nat)
    requires text == body + rest && rest != [] && end == LineEnd(text, |body|, INBUF - 1)
    ensures |body| < end <= |text| && text[|body|..end] == rest[..end - |body|]
    ensures end - |body| == LineEnd(rest, 0, INBUF - 1)
  {
    hide LineEnd;
    LineEndShift(body, rest, 0, INBUF - 1);
    assert (body + rest)[|body|..][..end - |body|] == rest[..end - |body|];
  }

  lemma {:induction false} LineEndShift(body: string, rest: string, p: nat, room: nat)
    requires p <= |rest|
    ensures LineEnd(body + rest, |body| + p, room) == |body| + LineEnd(rest, p, room)
    decreases room
  {
    if p < |rest| && room > 0 && rest[p] != '\n' {
      LineEndShift(body, rest, p + 1, room - 1);
    }
  }

  lemma StartsWithPads(rest: string)
    requires EndText(rest)
    ensures |rest| >= 4
  {
  }

  lemma EndPrefix(rest: string)
    requires EndText(rest)
    ensures EndLine(rest[..LineEnd(rest, 0, INBUF - 1)])
  {
    hide LineEnd;
    var m := LineEnd(rest, 0, INBUF - 1);
    var n: nat :| BlankUpTo(rest, n);
    assert rest[0] == '=' && rest[1] == '=' && rest[2] == '=' && rest[3] == '=';
    assert m >= 4 && m <= n + 1;
    assert rest[..m][..4] == "====";
  }

  /** A piece inside the body is decoded, and the decoder goes on behind it. */
  lemma BodyPiece(text: string, rest: string, rflag: bool, body: string, x: seq<byte>, from: nat, pos: nat, out: seq<byte>)
    returns (from': nat, end: nat, y: seq<byte>)
    requires text == body + rest && Decoding(body, x, from, pos, out) && pos < |body| && pos - from + 2 <= INBUF
    ensures from' <= end && pos < end <= |body| && end - from < INBUF && Decoding(body, x, from', end, out + y)
    ensures Streamed(text, rflag, body[from..pos], pos) == Streamed(text, rflag, body[from'..end], end).After(y)
  {
    hide Encode, Strip, Count, Counted, Decoding, Broken, Cut, Meaning, Streamed, LineEnd, EndsWith, CString;
    DecodingSituation(body, x, from, pos, out);
    end := LineEnd(text, pos, INBUF - (pos - from) - 1);
    InsideBody(text, rest, body, x, pos, end);
    JoinSlices(body, from, pos, end);
    y := NextPiece(body, x, from, pos, end, out);
    var buf := body[from..end];
    from' := from + Cut(buf);
    SliceOfSlice(body, from, end, Cut(buf));
    StreamedStep(text, rflag, body[from..pos], pos);
  }

  lemma DecodingSituation(body: string, x: seq<byte>, from: nat, pos: nat, out: seq<byte>)
    requires Decoding(body, x, from, pos, out)
    ensures from <= pos <= |body| && Broken(body, Encode(x)) && Count(body[..from]) % 4 == 0
  {
  }

  lemma Initially(body: string, x: seq<byte>)
    requires Broken(body, Encode(x))
    ensures Decoding(body, x, 0, 0, [])
  {
    assert body[..0] == [];
  }

  lemma InsideBody(text: string, rest: string, body: string, x: seq<byte>, pos: nat, end: nat)
    requires text == body + rest && Broken(body, Encode(x)) && pos < |body| && pos < end <= |text|
    requires forall i :: pos <= i < end - 1 ==> text[i] != '\n'
    ensures end <= |body| && CString(text[pos..end]) == body[pos..end]
  {
    hide Encode, Strip;
    assert text[|body| - 1] == '\n';
    assert text[pos..end] == body[pos..end];
    BrokenChars(body, x);
    assert '\0' !in body[pos..end];
  }

  // ----- exactly when the stream decodes -----

  /** body[i..j] starts a group of four characters and does not complete it. */
  ghost predicate OpenGroup(body: string, i: nat, j: nat) {
    && i < j <= |body| && Count(body[..i]) % 4 == 0 && Counted(body[i])
    && Count(body[..j]) < Count(body[..i]) + 4
  }

  /** Every group of four characters is complete before it fills the buffer. */
  ghost predicate GroupsFit(body: string) {
    forall i: nat, j: nat :: OpenGroup(body, i, j) ==> j - i < MAXPATHLEN
  }

  /** A leftover is the beginning of a group. */
  lemma LeftoverIsOpen(body: string, x: seq<byte>, from: nat, pos: nat, out: seq<byte>)
    requires Decoding(body, x, from, pos, out) && from < pos
    ensures OpenGroup(body, from, pos)
  {
    hide Counted, Count, Strip, Encode, Done;
    assert body[..pos] == body[..from] + body[from..pos];
    CountAppend(body[..from], body[from..pos]);
    assert body[from..pos][0] == body[from];
  }

  lemma {:induction false} Fitting(text: string, rest: string, rflag: bool, body: string, x: seq<byte>, from: nat, pos: nat, out: seq<byte>)
    requires text == body + rest && EndText(rest) && Decoding(body, x, from, pos, out) && GroupsFit(body)
    ensures from <= pos <= |body| && Streamed(text, rflag, body[from..pos], pos).After(out) == Decoded(x, Finished)
    decreases |body| - pos
  {
    hide Encode, Strip, Count, Counted, Decoding, Streamed, OpenGroup;
    DecodingSituation(body, x, from, pos, out);
    if pos == |body| {
      EndPiece(text, rest, rflag, body, x, from, out);
      assert x + [] == x;
    } else {
      if from < pos {
        LeftoverIsOpen(body, x, from, pos, out);
      }
      var from', end, y := BodyPiece(text, rest, rflag, body, x, from, pos, out);
      Fitting(text, rest, rflag, body, x, from', end, out + y);
      AfterTwo(Streamed(text, rflag, body[from'..end], end), out, y);
    }
  }

  lemma {:induction false} CountMonotone(body: string, i: nat, j: nat)
    requires i <= j <= |body|
    ensures Count(body[..i]) <= Count(body[..j])
  {
    hide Counted, Count;
    assert body[..j] == body[..i] + body[i..j];
    CountAppend(body[..i], body[i..j]);
  }

  /** No cut falls inside an open group. */
  lemma NoCutInside(body: string, i: nat, j: nat, c: nat)
    requires OpenGroup(body, i, j) && c <= j && Count(body[..c]) % 4 == 0
    ensures c <= i
  {
    hide Counted;
    assert body[..i + 1][..i] == body[..i];
    if i < c {
      CountMonotone(body, i + 1, c);
      CountMonotone(body, c, j);
    }
  }

  lemma {:induction false} Sticking(text: string, rest: string, rflag: bool, body: string, x: seq<byte>, from: nat, pos: nat, out: seq<byte>,
                                    i: nat, j: nat)
    requires text == body + rest && EndText(rest) && Decoding(body, x, from, pos, out)
    requires OpenGroup(body, i, j) && j - i >= MAXPATHLEN && from <= i && pos <= i + MAXPATHLEN
    ensures from <= pos <= |body| && Streamed(text, rflag, body[from..pos], pos).outcome == Stuck
    ensures out + Streamed(text, rflag, body[from..pos], pos).out < x
    decreases |body| - pos
  {
    hide Encode, Strip, Count, Counted, Decoding, Streamed, OpenGroup;
    DecodingSituation(body, x, from, pos, out);
    OpenInside(body, i, j);
    if pos - from + 2 > INBUF {
      StreamedStep(text, rflag, body[from..pos], pos);
      PrefixDecoded(body, x, from, pos, out, i);
      assert out + [] == out;
    } else {
      if pos == |body| {
        EndPiece(text, rest, rflag, body, x, from, out);
      }
      var from', end, y := BodyPiece(text, rest, rflag, body, x, from, pos, out);
      DecodingSituation(body, x, from', end, out + y);
      NoCutInside(body, i, j, from');
      Sticking(text, rest, rflag, body, x, from', end, out + y, i, j);
      AfterTwo(Streamed(text, rflag, body[from'..end], end), out, y);
    }
  }

  lemma OpenInside(body: string, i: nat, j: nat)
    requires OpenGroup(body, i, j)
    ensures i < j <= |body| && Counted(body[i])
  {
  }

  /** What has been written before the end of the body is a proper beginning. */
  lemma PrefixDecoded(body: string, x: seq<byte>, from: nat, pos: nat, out: seq<byte>, i: nat)
    requires Decoding(body, x, from, pos, out) && from <= i < |body| && Counted(body[i])
    ensures out < x
  {
    hide Counted, Count, Strip, Encode;
    BrokenChars(body, x);
    CountIsStrip(body);
    EncodedLength(x);
    assert body == body[..from] + body[from..];
    CountAppend(body[..from], body[from..]);
    CountHas(body[from..], i - from);
  }

  lemma {:induction false} CountHas(s: string, i: nat)
    requires i < |s| && Counted(s[i])
    ensures Count(s) > 0
  {
    if i < |s| - 1 {
      CountHas(s[..|s| - 1], i);
    }
  }

  /** However the encoding of `x` is broken, with whatever whitespace, and whatever follows the "===="
      line: if every group of four fits the buffer, the decoder outputs `x` and stops successfully at
      that line; if one does not, it gets stuck with only a beginning of `x` written. */
  lemma StreamExactlyWhenGroupsFit(body: string, rest: string, x: seq<byte>, rflag: bool)
    requires Broken(body, Encode(x)) && EndText(rest)
    ensures GroupsFit(body) ==> Streamed(body + rest, rflag, "", 0) == Decoded(x, Finished)
    ensures !GroupsFit(body) ==>
              var d := Streamed(body + rest, rflag, "", 0);
              d.outcome == Stuck && d.out < x
  {
    hide Broken, Encode, Count, Counted, Decoding, Streamed, OpenGroup, EndText;
    var text := body + rest;
    Initially(body, x);
    assert body[0..0] == "";
    var d := Streamed(text, rflag, "", 0);
    assert [] + d.out == d.out;
    if GroupsFit(body) {
      Fitting(text, rest, rflag, body, x, 0, 0, []);
    } else {
      var i: nat, j: nat :| OpenGroup(body, i, j) && j - i >= MAXPATHLEN;
      Sticking(text, rest, rflag, body, x, 0, 0, [], i, j);
    }
  }

  /** Without the end line everything is decoded too, but the file is reported short unless -r is given. */
  lemma TruncatedIsDecoded(body: string, x: seq<byte>, rflag: bool)
    requires Broken(body, Encode(x)) && GroupsFit(body)
    ensures Streamed(body, rflag, "", 0) == Decoded(x, if rflag then RawEnd else ShortFile)
  {
    hide Broken, Encode, Count, Counted, Decoding, Streamed, OpenGroup;
    Initially(body, x);
    assert body[0..0] == "";
    var d := Streamed(body, rflag, "", 0);
    assert [] + d.out == d.out;
    FittingToEnd(body, rflag, x, 0, 0, []);
  }

  lemma {:induction false} FittingToEnd(body: string, rflag: bool, x: seq<byte>, from: nat, pos: nat, out: seq<byte>)
    requires Decoding(body, x, from, pos, out) && GroupsFit(body)
    ensures from <= pos <= |body|
    ensures Streamed(body, rflag, body[from..pos], pos).After(out) == Decoded(x, if rflag then RawEnd else ShortFile)
    decreases |body| - pos
  {
    hide Encode, Strip, Count, Counted, Decoding, Streamed, OpenGroup;
    DecodingSituation(body, x, from, pos, out);
    if pos == |body| {
      AtEnd(body, x, from, out);
      assert body[from..pos] == "";
      StreamedStep(body, rflag, "", pos);
      assert x + [] == x;
    } else {
      if from < pos {
        LeftoverIsOpen(body, x, from, pos, out);
      }
      assert body == body + "";
      var from', end, y := BodyPiece(body, "", rflag, body, x, from, pos, out);
      FittingToEnd(body, rflag, x, from', end, out + y);
      AfterTwo(Streamed(body, rflag, body[from'..end], end), out, y);
    }
  }

  lemma PlainEnd()
    ensures EndText("====\n")
  {
    assert BlankUpTo("====\n", 4);
  }

  // ----- what it is to be stuck -----

  /** What one pass of the source's loop leaves: bytes written, the leftover, and the place in the
      stream. */
  datatype PassResult = PassResult(out: seq<byte>, leftover: string, pos: nat)

  /** One pass of the source's loop; None when it is left.  With room for one character fgets gives an
      empty line and is not at the end of the file. */
  ghost function Pass(text: string, leftover: string, pos: nat): Option<PassResult>
    requires pos <= |text| && |leftover| < INBUF
  {
    var room := INBUF - |leftover| - 1;
    var end := LineEnd(text, pos, room);
    var buf := leftover + CString(text[pos..end]);
    if room > 0 && end == pos then None
    else if Meaning(buf[..Cut(buf)]).None? then None
    else Some(PassResult(Meaning(buf[..Cut(buf)]).value, buf[Cut(buf)..], end))
  }

  /** The state after `n` passes. */
  ghost function Passes(text: string, leftover: string, pos: nat, n: nat): Option<PassResult>
    requires pos <= |text| && |leftover| < INBUF
  {
    if n == 0 then Some(PassResult([], leftover, pos))
    else
      match Passes(text, leftover, pos, n - 1)
      case None => None
      case Some(p) => if p.pos <= |text| && |p.leftover| < INBUF then Pass(text, p.leftover, p.pos) else None
  }

  lemma {:induction false} PassesShift(text: string, leftover: string, pos: nat, n: nat)
    requires pos <= |text| && |leftover| < INBUF && Pass(text, leftover, pos).Some?
    requires Pass(text, leftover, pos).value.pos <= |text| && |Pass(text, leftover, pos).value.leftover| < INBUF
    ensures var p := Pass(text, leftover, pos).value;
            (n == 0 ==> Passes(text, leftover, pos, 1) == Some(p))
            && (n > 0 ==> Passes(text, leftover, pos, n + 1) == Passes(text, p.leftover, p.pos, n))
  {
    hide Pass;
    if n == 0 {
      assert Passes(text, leftover, pos, 0) == Some(PassResult([], leftover, pos));
    } else {
      PassesShift(text, leftover, pos, n - 1);
    }
  }

  /** What is left over has its own cut in front. */
  lemma CutOfLeftover(buf: string)
    ensures Cut(buf[Cut(buf)..]) == 0
  {
    hide Counted, Count, Cut;
    var cut := Cut(buf);
    var s := buf[cut..];
    forall j | 0 < j <= |s| ensures Count(s[..j]) % 4 != 0 {
      assert buf[..cut + j] == buf[..cut] + s[..j];
      CountAppend(buf[..cut], s[..j]);
      assert Count(buf[..cut + j]) % 4 != 0;
    }
    assert s[..0] == [];
    CountNothing();
    CutIsUnique(s, 0);
  }

  lemma CountNothing()
    ensures Count([]) == 0
  {
  }

  /** A leftover that fills the buffer is a fixed point: nothing is read, cut or written. */
  lemma FullIsFixed(text: string, leftover: string, pos: nat)
    requires pos <= |text| && |leftover| == INBUF - 1 && Cut(leftover) == 0
    ensures Pass(text, leftover, pos) == Some(PassResult([], leftover, pos))
  {
    hide Cut, Meaning, LineEnd;
    assert text[pos..pos] == [] && leftover + [] == leftover && leftover[..0] == [] && leftover[0..] == leftover;
    assert CString([]) == [];
    EncodeNothing([]);
    StripHead([]);
    MeaningOfEncoding([], []);
  }

  lemma {:induction false} FullStays(text: string, leftover: string, pos: nat, n: nat)
    requires pos <= |text| && |leftover| == INBUF - 1 && Cut(leftover) == 0
    ensures Passes(text, leftover, pos, n) == Some(PassResult([], leftover, pos))
  {
    hide Pass, Cut;
    FullIsFixed(text, leftover, pos);
    if n > 0 {
      FullStays(text, leftover, pos, n - 1);
    }
  }

  /** How a pass that goes on continues the stream. */
  lemma StreamedByPass(text: string, rflag: bool, leftover: string, pos: nat)
    requires pos <= |text| && |leftover| + 2 <= INBUF
    ensures var p := Pass(text, leftover, pos);
            && (p.None? ==> Streamed(text, rflag, leftover, pos).outcome != Stuck)
            && (p.Some? ==>
                  && pos < p.value.pos <= |text| && |p.value.leftover| < INBUF && Cut(p.value.leftover) == 0
                  && Streamed(text, rflag, leftover, pos).outcome
                     == Streamed(text, rflag, p.value.leftover, p.value.pos).outcome)
  {
    hide LineEnd, CString, Cut, Meaning, EndsWith, Streamed;
    StreamedStep(text, rflag, leftover, pos);
    var end := LineEnd(text, pos, INBUF - |leftover| - 1);
    var buf := leftover + CString(text[pos..end]);
    CutOfLeftover(buf);
    CStringShrinks(text[pos..end]);
  }

  lemma {:induction false} CStringShrinks(s: string)
    ensures |CString(s)| <= |s|
  {
    if s != [] {
      CStringShrinks(s[1..]);
    }
  }

  lemma {:induction false} StuckRuns(text: string, rflag: bool, leftover: string, pos: nat, n: nat)
    requires pos <= |text| && |leftover| < INBUF && Cut(leftover) == 0 && Streamed(text, rflag, leftover, pos).outcome == Stuck
    ensures Passes(text, leftover, pos, n).Some?
    decreases n
  {
    hide Cut, Pass, Streamed, Passes;
    FirstPass(text, leftover, pos);
    if |leftover| == INBUF - 1 {
      FullStays(text, leftover, pos, n);
    } else if n > 0 {
      StreamedByPass(text, rflag, leftover, pos);
      var p := Pass(text, leftover, pos).value;
      StuckRuns(text, rflag, p.leftover, p.pos, n - 1);
      PassesShift(text, leftover, pos, n - 1);
    }
  }

  lemma {:induction false} OtherwiseItEnds(text: string, rflag: bool, leftover: string, pos: nat) returns (n: nat)
    requires pos <= |text| && |leftover| < INBUF && Cut(leftover) == 0 && Streamed(text, rflag, leftover, pos).outcome != Stuck
    ensures n > 0 && Passes(text, leftover, pos, n).None?
    decreases |text| - pos
  {
    hide Cut, Pass, Streamed, Passes;
    StreamedStep(text, rflag, leftover, pos);
    StreamedByPass(text, rflag, leftover, pos);
    FirstPass(text, leftover, pos);
    n := 1;
    if Pass(text, leftover, pos).Some? {
      var p := Pass(text, leftover, pos).value;
      n := OtherwiseItEnds(text, rflag, p.leftover, p.pos);
      PassesShift(text, leftover, pos, n);
      n := n + 1;
    }
  }

  lemma FirstPass(text: string, leftover: string, pos: nat)
    requires pos <= |text| && |leftover| < INBUF
    ensures Passes(text, leftover, pos, 0).Some? && Passes(text, leftover, pos, 1) == Pass(text, leftover, pos)
  {
    hide Pass;
    assert Passes(text, leftover, pos, 0) == Some(PassResult([], leftover, pos));
  }

  /** The outcome Stuck is exactly that the source's loop runs for ever. */
  lemma StuckExactly(text: string, rflag: bool)
    ensures Streamed(text, rflag, "", 0).outcome == Stuck <==> forall n: nat :: Passes(text, "", 0, n).Some?
  {
    hide Streamed, Passes;
    if Streamed(text, rflag, "", 0).outcome == Stuck {
      forall n: nat ensures Passes(text, "", 0, n).Some? {
        StuckRuns(text, rflag, "", 0, n);
      }
    } else {
      var n := OtherwiseItEnds(text, rflag, "", 0);
    }
  }

  // ----- bodies that fit and bodies that do not -----

  const DENSITY := 341

  /** No run of 341 characters is all whitespace. */
  ghost predicate Dense(s: string) {
    forall i :: 0 <= i <= |s| - DENSITY ==> CountedSoon(s, i)
  }

  ghost predicate CountedSoon(s: string, i: nat) {
    exists k :: i <= k < i + DENSITY && k < |s| && Counted(s[k])
  }

  lemma {:induction false} LastCounted(s: string) returns (p: nat)
    requires s != [] && Counted(s[0])
    ensures p < |s| && Counted(s[p]) && Count(s) == Count(s[..p]) + 1
    ensures forall k :: p < k < |s| ==> !Counted(s[k])
  {
    hide Counted;
    var init := s[..|s| - 1];
    if Counted(s[|s| - 1]) {
      p := |s| - 1;
    } else {
      p := LastCounted(init);
      assert init[..p] == s[..p];
    }
  }

  lemma {:induction false} DenseIsShort(s: string)
    requires Dense(s) && (s != [] ==> Counted(s[0]))
    ensures |s| <= DENSITY * Count(s)
  {
    hide Counted, Count;
    if s != [] {
      var p := LastCounted(s);
      var front := s[..p];
      forall i | 0 <= i <= |front| - DENSITY ensures CountedSoon(front, i) {
        assert CountedSoon(s, i);
        var k :| i <= k < i + DENSITY && k < |s| && Counted(s[k]);
        assert front[k] == s[k];
      }
      DenseIsShort(front);
      assert p + 1 + DENSITY <= |s| ==> CountedSoon(s, p + 1);
    }
  }

  /** With no run of 341 whitespace characters, so with lines of any length, ended in whatever way and
      separated by some blank ones, every group fits. */
  lemma DenseFits(body: string)
    requires Dense(body)
    ensures GroupsFit(body)
  {
    hide Counted, Count;
    forall i: nat, j: nat | OpenGroup(body, i, j) ensures j - i < MAXPATHLEN {
      var t := body[i..j];
      assert body[..j] == body[..i] + t && t[0] == body[i];
      CountAppend(body[..i], t);
      forall l | 0 <= l <= |t| - DENSITY ensures CountedSoon(t, l) {
        var l' := i + l;
        assert CountedSoon(body, l');
        var k :| l' <= k < l' + DENSITY && k < |body| && Counted(body[k]);
        assert t[k - i] == body[k];
      }
      DenseIsShort(t);
    }
  }

  /** Non-empty lines fit. */
  lemma LinesFit(body: string, x: seq<byte>)
    requires Broken(body, Encode(x)) && Lines(body)
    ensures GroupsFit(body)
  {
    hide Encode, Strip, Counted, GroupsFit;
    BrokenChars(body, x);
    forall i | 0 <= i <= |body| - DENSITY ensures CountedSoon(body, i) {
      assert Counted(body[i]) || Counted(body[i + 1]);
    }
    DenseFits(body);
  }

  lemma {:induction false} BlankStrip(n: nat)
    ensures Strip(seq(n, _ => '\n')) == []
  {
    if n > 0 {
      var s := seq(n, _ => '\n');
      assert s[1..] == seq(n - 1, _ => '\n');
      BlankStrip(n - 1);
    }
  }

  /** A body on which the decoder is stuck: one byte, with 1023 newlines behind the first digit. */
  lemma StuckExample() returns (body: string, x: seq<byte>)
    ensures Broken(body, Encode(x)) && !GroupsFit(body)
    ensures Streamed(body + "====\n", false, "", 0) == Decoded([], Stuck) && x != []
  {
    var blank := seq(1023, _ => '\n');
    x := [0];
    body := "A" + blank + "A==\n";
    assert Encode(x) == "AA==";
    BlankStrip(1023);
    StripAppend("A", blank);
    StripAppend("A" + blank, "A==\n");
    StripShort();
    assert Broken(body, Encode(x));
    OpenExample(body, blank);
    PlainEnd();
    StreamExactlyWhenGroupsFit(body, "====\n", x, false);
  }

  lemma StripShort()
    ensures Strip("A") == "A" && Strip("A==\n") == "A=="
  {
    StripNothing("A");
    StripNothing("A==");
    NewlineVanishes("A==");
    assert "A==" + "\n" == "A==\n";
  }

  lemma OpenExample(body: string, blank: string)
    requires blank == seq(1023, _ => '\n') && "A" + blank <= body
    ensures OpenGroup(body, 0, 1024)
  {
    hide Count;
    assert body[..0] == [] && body[..1024] == "A" + blank;
    CountAppend("A", blank);
    CountBlank(1023);
    CountAppend([], "A");
    assert Count("A") == 1 && Count([]) == 0 by { CountOne(); }
  }

  lemma CountOne()
    ensures Count("A") == 1 && Count([]) == 0
  {
    assert "A"[..0] == [];
  }

  lemma {:induction false} CountBlank(n: nat)
    ensures Count(seq(n, _ => '\n')) == 0
  {
    if n > 0 {
      var s := seq(n, _ => '\n');
      assert s[..n - 1] == seq(n - 1, _ => '\n');
      CountBlank(n - 1);
    }
  }

  /** uuencode -m followed by uudecode -m returns the bytes. */
  method RoundTrip(x: seq<byte>, rflag: bool) returns (y: seq<byte>, outcome: Outcome)
    ensures y == x && outcome == Finished
  {
    hide *;
    var body := EncodeLines(x);
    y, outcome := DecodeLines(body + "====\n", rflag);
    LinesFit(body, x);
    PlainEnd();
    StreamExactlyWhenGroupsFit(body, "====\n", x, rflag);
  }
}
