/** The running size check that both stubs emit, proved equal to a plain sequential parser. */
module MigMessage {
  import opened Bytes
  import opened MigLayout

  // ----- 32-bit arithmetic of the emitted code -----

  function Mul32(a: nat, b: nat): u32 { Scaled(a, b) % WORD }

  function Add32(a: nat, b: nat): u32 { (a + b) % WORD }

  function Sub32(a: u32, b: u32): u32 { (a - b) % WORD }

  /** _WALIGN_(x): ((x) + 3) & ~3. */
  function WAlign32(x: u32): u32 { Add32(x, 3) / 4 * 4 }

  /** WriteCalcArgSize and WriteArgSize: the rounding is emitted only if the element needs it. */
  function ArgSize(elem: nat, count: u32): u32 {
    if elem % 4 != 0 then WAlign32(Mul32(elem, count)) else Mul32(elem, count)
  }

  lemma ArgSizeIsAligned(elem: nat, count: u32)
    requires Align4(Scaled(elem, count)) < WORD
    ensures ArgSize(elem, count) == Align4(Scaled(elem, count))
  {
    hide Scaled, Align4, WAlign32;
    WAlignSmall(Scaled(elem, count));
    if elem % 4 == 0 {
      ScaledWords(elem, count);
    }
  }

  lemma WAlignSmall(n: nat)
    requires Align4(n) < WORD
    ensures n < WORD && WAlign32(n) == Align4(n) && (n % 4 == 0 ==> Align4(n) == n)
  {
    hide Align4;
    Align4IsRounding(n);
    assert n + 3 < WORD;
  }

  // ----- what a message carries -----

  /** The count word stored in front of the data; 0 where the message is too short. */
  function CountAt(msg: seq<byte>, f: Field, p: int): u32
    requires f.Var?
  {
    var at := p + f.Head() - 4;
    if 0 <= at && at + 4 <= |msg| then DecodeU32(msg[at..at + 4]) else 0
  }

  /** The emitted read of a count field; its address must lie inside the message. */
  function ReadCount(msg: seq<byte>, f: Field, p: int): (c: u32)
    requires f.Var? && 0 <= p && p + f.Head() <= |msg|
    ensures c == CountAt(msg, f, p)
  {
    DecodeU32(msg[p + f.Head() - 4..p + f.Head()])
  }

  /** Field `f` with value `v` starts at `p`: the count, if any, and the value's bytes are there. */
  ghost predicate CarriesAt(msg: seq<byte>, p: nat, f: Field, v: Value)
    requires f.WellFormed() && Fits(f, v)
  {
    var data := Payload(f, v);
    var at := if f.Var? then p + f.Head() else p;
    && at + |data| <= |msg|
    && msg[at..at + |data|] == data
    && (f.Var? ==> CountAt(msg, f, p) == Count(f, v))
  }

  /** The first `n` fields sit tight one after the other and hold the given values. */
  ghost predicate Carries(msg: seq<byte>, base: nat, fs: seq<Field>, vs: seq<Value>, n: nat)
    requires WellFormed(fs) && FitAll(fs, vs) && n <= |fs|
  {
    forall k {:trigger Position(base, fs, vs, k)} :: 0 <= k < n ==> CarriesAt(msg, Position(base, fs, vs, k), fs[k], vs[k])
  }

  lemma CarriesAtFrame(m: seq<byte>, m': seq<byte>, q: nat, p: nat, f: Field, v: Value)
    requires f.WellFormed() && Fits(f, v) && CarriesAt(m, p, f, v)
    requires p + f.Head() + Grown(f, v) <= q <= |m| && q <= |m'| && m[..q] == m'[..q]
    ensures CarriesAt(m', p, f, v)
  {
    var data := Payload(f, v);
    var at := if f.Var? then p + f.Head() else p;
    if f.Var? {
      PayloadIsCounted(f, v);
    }
    SliceOfPrefix(m, m', q, at, at + |data|);
    if f.Var? {
      SliceOfPrefix(m, m', q, at - 4, at);
    }
  }

  lemma CarriesFrame(m: seq<byte>, m': seq<byte>, base: nat, fs: seq<Field>, vs: seq<Value>, n: nat, q: nat)
    requires WellFormed(fs) && FitAll(fs, vs) && n <= |fs| && Carries(m, base, fs, vs, n)
    requires Position(base, fs, vs, n) <= q <= |m| && q <= |m'| && m[..q] == m'[..q]
    ensures Carries(m', base, fs, vs, n)
  {
    hide CarriesAt, Position, Grown, Field.Head;
    forall k {:trigger Position(base, fs, vs, k)} | 0 <= k < n
      ensures CarriesAt(m', Position(base, fs, vs, k), fs[k], vs[k])
    {
      PositionMonotone(base, fs, vs, k + 1, n);
      PositionStep(base, fs, vs, k);
      CarriesAtFrame(m, m', q, Position(base, fs, vs, k), fs[k], vs[k]);
    }
  }

  lemma PositionStep(base: nat, fs: seq<Field>, vs: seq<Value>, k: nat)
    requires WellFormed(fs) && FitAll(fs, vs) && k < |fs|
    ensures Position(base, fs, vs, k + 1) == Position(base, fs, vs, k) + fs[k].Head() + Grown(fs[k], vs[k])
  {
    hide Grown, Field.Head;
  }

  // ----- the reference parser -----

  /** Word-aligned bytes of `count` elements. */
  function Span(f: Field, count: nat): nat
    requires f.Var?
  {
    Align4(Scaled(f.elem, count))
  }

  lemma SpanWithinArea(f: Field, count: nat)
    requires f.Var? && count <= f.max
    ensures Scaled(f.elem, count) <= Span(f, count) <= f.Area()
  {
    ScaledMonotone(f.elem, count, f.max);
    AlignMonotone(Scaled(f.elem, count), Scaled(f.elem, f.max));
  }

  /** Reading left to right from `p`: every count is within its declared maximum, every field
      lies inside the message, and the message ends where the last field ends. */
  ghost predicate Parses(fs: seq<Field>, k: nat, p: nat, msg: seq<byte>)
    requires k <= |fs|
    decreases |fs| - k
  {
    if k == |fs| then p == |msg|
    else if !fs[k].Var? then p + fs[k].Head() <= |msg| && Parses(fs, k + 1, p + fs[k].Head(), msg)
    else
      var c := CountAt(msg, fs[k], p);
      && p + fs[k].Head() <= |msg|
      && c <= fs[k].max
      && Parses(fs, k + 1, p + fs[k].Head() + Span(fs[k], c), msg)
  }

  /** Where the parser finds field `k`. */
  function ParsedAt(base: nat, fs: seq<Field>, msg: seq<byte>, k: nat): nat
    requires k <= |fs|
  {
    if k == 0 then base
    else
      var p := ParsedAt(base, fs, msg, k - 1);
      p + fs[k - 1].Head() +
      if !fs[k - 1].Var? then 0 else Span(fs[k - 1], CountAt(msg, fs[k - 1], p))
  }

  /** Element bytes, word aligned, that the counts of the fields before `k` announce. */
  function Announced(base: nat, fs: seq<Field>, msg: seq<byte>, k: nat): nat
    requires k <= |fs|
  {
    if k == 0 then 0
    else
      Announced(base, fs, msg, k - 1) +
      if !fs[k - 1].Var? then 0
      else Span(fs[k - 1], CountAt(msg, fs[k - 1], ParsedAt(base, fs, msg, k - 1)))
  }

  ghost predicate CountsInRange(base: nat, fs: seq<Field>, msg: seq<byte>) {
    forall k {:trigger ParsedAt(base, fs, msg, k)} :: 0 <= k < |fs| && fs[k].Var? ==>
      CountAt(msg, fs[k], ParsedAt(base, fs, msg, k)) <= fs[k].max
  }

  lemma {:induction false} ParsedPlusHeads(base: nat, fs: seq<Field>, msg: seq<byte>, k: nat)
    requires k <= |fs|
    ensures ParsedAt(base, fs, msg, k) + HeadsFrom(fs, k) == MinSize(base, fs) + Announced(base, fs, msg, k)
  {
    if k != 0 {
      ParsedPlusHeads(base, fs, msg, k - 1);
    }
  }

  lemma {:induction false} ParsesNeedsHeads(fs: seq<Field>, k: nat, p: nat, msg: seq<byte>)
    requires WellFormed(fs) && k <= |fs| && Parses(fs, k, p, msg)
    ensures p + HeadsFrom(fs, k) <= |msg| <= p + HeadsFrom(fs, k) + AreasFrom(fs, k)
    decreases |fs| - k
  {
    if k < |fs| {
      if !fs[k].Var? {
        ParsesNeedsHeads(fs, k + 1, p + fs[k].Head(), msg);
      } else {
        var c := CountAt(msg, fs[k], p);
        SpanWithinArea(fs[k], c);
        ParsesNeedsHeads(fs, k + 1, p + fs[k].Head() + Span(fs[k], c), msg);
      }
    }
  }

  /** Parsing is the arithmetic condition the generated code is meant to enforce: counts within
      their maxima, and a size of exactly the minimum plus the aligned element bytes. */
  lemma ParsesIsSizeEquation(base: nat, fs: seq<Field>, msg: seq<byte>)
    requires WellFormed(fs)
    ensures Parses(fs, 0, base, msg) <==>
            CountsInRange(base, fs, msg) && |msg| == MinSize(base, fs) + Announced(base, fs, msg, |fs|)
  {
    ParsedPlusHeads(base, fs, msg, |fs|);
    if Parses(fs, 0, base, msg) {
      ParsesFrom(base, fs, msg, |fs|);
    }
    if CountsInRange(base, fs, msg) && |msg| == MinSize(base, fs) + Announced(base, fs, msg, |fs|) {
      SizesParse(base, fs, msg, 0);
    }
  }

  lemma {:induction false} ParsesFrom(base: nat, fs: seq<Field>, msg: seq<byte>, n: nat)
    requires WellFormed(fs) && n <= |fs| && Parses(fs, 0, base, msg)
    ensures Parses(fs, n, ParsedAt(base, fs, msg, n), msg)
    ensures forall k {:trigger ParsedAt(base, fs, msg, k)} :: 0 <= k < n && fs[k].Var? ==>
              CountAt(msg, fs[k], ParsedAt(base, fs, msg, k)) <= fs[k].max
  {
    hide CountAt, Span;
    if n != 0 {
      ParsesFrom(base, fs, msg, n - 1);
    }
  }

  lemma {:induction false} SizesParse(base: nat, fs: seq<Field>, msg: seq<byte>, k: nat)
    requires WellFormed(fs) && k <= |fs| && CountsInRange(base, fs, msg)
    requires |msg| == MinSize(base, fs) + Announced(base, fs, msg, |fs|)
    ensures Parses(fs, k, ParsedAt(base, fs, msg, k), msg)
    decreases |fs| - k
  {
    hide CountAt, Align4, Scaled;
    ParsedPlusHeads(base, fs, msg, k);
    AnnouncedMonotone(base, fs, msg, k, |fs|);
    if k < |fs| {
      SizesParse(base, fs, msg, k + 1);
    }
  }

  lemma {:induction false} AnnouncedMonotone(base: nat, fs: seq<Field>, msg: seq<byte>, i: nat, j: nat)
    requires i <= j <= |fs|
    ensures Announced(base, fs, msg, i) <= Announced(base, fs, msg, j)
    decreases j
  {
    hide CountAt, Span;
    if i < j {
      AnnouncedMonotone(base, fs, msg, i, j - 1);
    }
  }

  lemma CarriedSpan(msg: seq<byte>, p: nat, f: Field, v: Value)
    requires f.WellFormed() && Fits(f, v) && f.Var? && !Oversized(f, v) && CarriesAt(msg, p, f, v)
    ensures CountAt(msg, f, p) <= f.max && Span(f, CountAt(msg, f, p)) == Grown(f, v)
  {
    PayloadIsCounted(f, v);
  }

  /** A message that carries in-bounds values and nothing more is parsed, field by field, at the
      positions the sender used. */
  lemma {:induction false} CarriedIsParsed(base: nat, fs: seq<Field>, vs: seq<Value>, msg: seq<byte>, k: nat)
    requires WellFormed(fs) && InBounds(fs, vs) && Carries(msg, base, fs, vs, |fs|) && k <= |fs|
    requires |msg| == Position(base, fs, vs, |fs|)
    ensures Parses(fs, k, Position(base, fs, vs, k), msg)
    decreases |fs| - k
  {
    hide CarriesAt, CountAt, Span, Grown;
    if k < |fs| {
      CarriedIsParsed(base, fs, vs, msg, k + 1);
      PositionMonotone(base, fs, vs, k + 1, |fs|);
      if fs[k].Var? {
        CarriedSpan(msg, Position(base, fs, vs, k), fs[k], vs[k]);
      } else {
        FixedDoesNotGrow(fs[k], vs[k]);
      }
    }
  }

  lemma {:induction false} CarriedAtParsed(base: nat, fs: seq<Field>, vs: seq<Value>, msg: seq<byte>, k: nat)
    requires WellFormed(fs) && InBounds(fs, vs) && Carries(msg, base, fs, vs, |fs|) && k <= |fs|
    ensures ParsedAt(base, fs, msg, k) == Position(base, fs, vs, k)
  {
    hide CarriesAt, CountAt, Span, Grown;
    if k != 0 {
      CarriedAtParsed(base, fs, vs, msg, k - 1);
      if fs[k - 1].Var? {
        CarriedSpan(msg, Position(base, fs, vs, k - 1), fs[k - 1], vs[k - 1]);
      } else {
        FixedDoesNotGrow(fs[k - 1], vs[k - 1]);
      }
    }
  }

  /** As far as both go, the two agree up to `q`. */
  ghost predicate AgreeTo(m: seq<byte>, msg: seq<byte>, q: nat) {
    q <= |m| && forall i :: 0 <= i < q && i < |msg| ==> msg[i] == m[i]
  }

  lemma AgreedCount(m: seq<byte>, msg: seq<byte>, q: nat, p: nat, f: Field)
    requires f.Var? && AgreeTo(m, msg, q) && p + f.Head() <= q && p + f.Head() <= |msg|
    ensures CountAt(msg, f, p) == CountAt(m, f, p)
  {
    hide DecodeU32;
    SliceAgrees(m, msg, p + f.Head() - 4, p + f.Head());
  }

  /** Up to the count of field `k`, a message that parses is found where the sender put it. */
  lemma {:induction false} AgreedAtParsed(base: nat, fs: seq<Field>, vs: seq<Value>, m: seq<byte>, msg: seq<byte>, k: nat, q: nat)
    requires WellFormed(fs) && FitAll(fs, vs) && k <= |fs| && Carries(m, base, fs, vs, k)
    requires Position(base, fs, vs, k) <= q && AgreeTo(m, msg, q) && Parses(fs, 0, base, msg)
    ensures ParsedAt(base, fs, msg, k) == Position(base, fs, vs, k)
  {
    hide CountAt, Span, Grown, AgreeTo, Field.Head, Position, Parses, ParsedAt, CarriesAt, VarsBefore, Offset;
    if k == 0 {
      PositionStart(base, fs, vs);
      Ends(base, fs, msg);
    } else {
      var p := Position(base, fs, vs, k - 1);
      OneStep(base, fs, msg, k - 1);
      ParsesFrom(base, fs, msg, k - 1);
      ParsesHead(fs, k - 1, ParsedAt(base, fs, msg, k - 1), msg);
      PositionStep(base, fs, vs, k - 1);
      AgreedAtParsed(base, fs, vs, m, msg, k - 1, q);
      assert CarriesAt(m, p, fs[k - 1], vs[k - 1]);
      if fs[k - 1].Var? {
        AgreedCount(m, msg, q, p, fs[k - 1]);
        CarriedGrown(m, p, fs[k - 1], vs[k - 1]);
      } else {
        FixedDoesNotGrow(fs[k - 1], vs[k - 1]);
      }
    }
  }

  lemma PositionStart(base: nat, fs: seq<Field>, vs: seq<Value>)
    requires WellFormed(fs) && FitAll(fs, vs)
    ensures Position(base, fs, vs, 0) == base
  {
  }

  lemma ParsesHead(fs: seq<Field>, k: nat, p: nat, msg: seq<byte>)
    requires k < |fs| && Parses(fs, k, p, msg)
    ensures p + fs[k].Head() <= |msg|
  {
    hide CountAt, Span;
  }

  lemma CarriedGrown(msg: seq<byte>, p: nat, f: Field, v: Value)
    requires f.WellFormed() && Fits(f, v) && f.Var? && CarriesAt(msg, p, f, v)
    ensures CountAt(msg, f, p) == Count(f, v) && Span(f, CountAt(msg, f, p)) == Grown(f, v)
  {
    hide CountAt;
  }

  /** Once a message holds an oversized count, nothing that is written behind the count, and no size,
      makes a receiver accept it. */
  lemma OversizedIsRefused(base: nat, fs: seq<Field>, vs: seq<Value>, m: seq<byte>, msg: seq<byte>, k: nat)
    requires WellFormed(fs) && FitAll(fs, vs) && FirstOversized(fs, vs, k) && Carries(m, base, fs, vs, k + 1)
    requires AgreeTo(m, msg, Position(base, fs, vs, k) + fs[k].Head())
    ensures !Parses(fs, 0, base, msg)
  {
    hide CountAt, Span, Grown, AgreeTo, Field.Head, Position, CarriesAt;
    var p := Position(base, fs, vs, k);
    if Parses(fs, 0, base, msg) {
      AgreedAtParsed(base, fs, vs, m, msg, k, p + fs[k].Head());
      ParsesFrom(base, fs, msg, k);
      assert CarriesAt(m, p, fs[k], vs[k]);
      AgreedCount(m, msg, p + fs[k].Head(), p, fs[k]);
      CarriedGrown(m, p, fs[k], vs[k]);
    }
  }

  // ----- the emitted check -----

  /** rtCheckVariable: one pass that numbers the fields by the variable fields before them. */
  method CheckVariable(fs: seq<Field>) returns (pos: seq<nat>, numVar: nat, maxPos: nat)
    ensures |pos| == |fs| && forall k :: 0 <= k < |fs| ==> pos[k] == VarsBefore(fs, k)
    ensures numVar == VarsBefore(fs, |fs|)
    ensures maxPos == if fs == [] then 0 else VarsBefore(fs, |fs| - 1)
  {
    pos, numVar, maxPos := [], 0, 0;
    for k := 0 to |fs|
      invariant |pos| == k && forall i :: 0 <= i < k ==> pos[i] == VarsBefore(fs, i)
      invariant numVar == VarsBefore(fs, k)
      invariant maxPos == if k == 0 then 0 else VarsBefore(fs, k - 1)
    {
      pos, maxPos := pos + [numVar], numVar;
      if fs[k].Var? {
        numVar := numVar + 1;
      }
    }
  }

  /** No variable field at or after `k`: all that can follow is the heads. */
  lemma {:induction false} OnlyFixedLeft(fs: seq<Field>, k: nat, p: nat, msg: seq<byte>)
    requires WellFormed(fs) && k <= |fs| && VarsBefore(fs, k) == VarsBefore(fs, |fs|)
    ensures Parses(fs, k, p, msg) <==> p + HeadsFrom(fs, k) == |msg|
    decreases |fs| - k
  {
    if k < |fs| {
      VarsMonotone(fs, k + 1, |fs|);
      OnlyFixedLeft(fs, k + 1, p + fs[k].Head(), msg);
    }
  }

  /** The comparisons WriteCheckMsgSize emits for one variable field, on the running size.
      `exact` is the "!=" form used for the last variable field, otherwise "<" is used. */
  predicate SizeRefused(size: u32, min: nat, f: Field, count: u32, exact: bool)
    requires f.Var? && f.WellFormed() && min < WORD
  {
    var need := Add32(min, ArgSize(f.elem, count));
    || count > f.max
    || Sub32(size, min) / f.elem < count
    || (if exact then size != need else size < need)
  }

  lemma RefusalIsUnparsable(fs: seq<Field>, k: nat, p: nat, msg: seq<byte>, size: u32, min: nat, exact: bool)
    requires WellFormed(fs) && k < |fs| && fs[k].Var? && min + AreasFrom(fs, k) < WORD
    requires p + HeadsFrom(fs, k) <= |msg|
    requires size == min + |msg| - p - HeadsFrom(fs, k)
    requires exact <==> VarsBefore(fs, k) + 1 == VarsBefore(fs, |fs|)
    ensures SizeRefused(size, min, fs[k], CountAt(msg, fs[k], p), exact) ==> !Parses(fs, k, p, msg)
    ensures !SizeRefused(size, min, fs[k], CountAt(msg, fs[k], p), exact) ==>
              var c := CountAt(msg, fs[k], p);
              var next := p + fs[k].Head() + Span(fs[k], c);
              && (Parses(fs, k, p, msg) <==> Parses(fs, k + 1, next, msg))
              && ArgSize(fs[k].elem, c) == Span(fs[k], c)
              && Sub32(size, Span(fs[k], c)) == size - Span(fs[k], c)
              && next + HeadsFrom(fs, k + 1) <= |msg|
              && (exact ==> next + HeadsFrom(fs, k + 1) == |msg|)
  {
    hide Align4, Scaled, ArgSize, CountAt;
    var f, c := fs[k], CountAt(msg, fs[k], p);
    var next := p + f.Head() + Span(f, c);
    if c <= f.max {
      SpanWithinArea(f, c);
      assert f.Area() <= AreasFrom(fs, k);
      ArgSizeIsAligned(f.elem, c);
      assert Add32(min, ArgSize(f.elem, c)) == min + Span(f, c);
      assert Sub32(size, min) == size - min;
      if Parses(fs, k, p, msg) {
        ParsesNeedsHeads(fs, k + 1, next, msg);
        Quotient(size - min, f.elem, c);
        if exact {
          OnlyFixedLeft(fs, k + 1, next, msg);
        }
      }
    }
  }

  lemma Quotient(n: nat, d: nat, c: nat)
    requires 1 <= d && Scaled(d, c) <= n
    ensures c <= n / d
  {
    ScaledIsProduct(d, c);
    assert d * c <= n < d * (n / d) + d;
    assert d * (c - n / d - 1) < 0;
  }

  /** The pointer kept for field `k`, plus its declared offset, is where the parser finds it. */
  ghost predicate PointsAt(base: nat, fs: seq<Field>, msg: seq<byte>, ptrs: seq<int>, k: nat)
    requires k <= |fs|
  {
    && VarsBefore(fs, k) < |ptrs|
    && ptrs[VarsBefore(fs, k)] + Offset(base, fs, k) == ParsedAt(base, fs, msg, k)
  }

  lemma FixedStep(fs: seq<Field>, k: nat, p: nat, msg: seq<byte>)
    requires k < |fs| && !fs[k].Var? && p + HeadsFrom(fs, k) <= |msg|
    ensures Parses(fs, k, p, msg) <==> Parses(fs, k + 1, p + fs[k].Head(), msg)
    ensures HeadsFrom(fs, k) == fs[k].Head() + HeadsFrom(fs, k + 1) && fs[k].Area() == 0
  {
  }

  lemma Ends(base: nat, fs: seq<Field>, msg: seq<byte>)
    ensures HeadsFrom(fs, |fs|) == 0 && AreasFrom(fs, |fs|) == 0
    ensures VarsBefore(fs, 0) == 0 && Offset(base, fs, 0) == base == ParsedAt(base, fs, msg, 0)
    ensures forall p: nat :: Parses(fs, |fs|, p, msg) <==> p == |msg|
  {
  }

  lemma OneStep(base: nat, fs: seq<Field>, msg: seq<byte>, k: nat)
    requires k < |fs|
    ensures VarsBefore(fs, k + 1) == VarsBefore(fs, k) + if fs[k].Var? then 1 else 0
    ensures Offset(base, fs, k + 1) == Offset(base, fs, k) + fs[k].Head() + fs[k].Area()
    ensures var p := ParsedAt(base, fs, msg, k);
            ParsedAt(base, fs, msg, k + 1) ==
            p + fs[k].Head() + if !fs[k].Var? then 0 else Span(fs[k], CountAt(msg, fs[k], p))
  {
  }

  /** WriteCheckMsgSize: the code emitted for variable field `k`, found at `p`.  It leaves the
      running size reduced by this array unless the array is the last one, and the array's
      aligned size in `delta` unless no field follows. */
  method CheckMsgSize(fs: seq<Field>, k: nat, numVar: nat, maxPos: nat, min: nat,
                      msg: seq<byte>, p: nat, size: u32)
    returns (refused: bool, newSize: u32, delta: u32)
    requires WellFormed(fs) && k < |fs| && fs[k].Var? && min + AreasFrom(fs, k) < WORD
    requires numVar == VarsBefore(fs, |fs|) && maxPos == VarsBefore(fs, |fs| - 1)
    requires p + HeadsFrom(fs, k) <= |msg| && size == min + |msg| - p - HeadsFrom(fs, k)
    ensures refused ==> !Parses(fs, k, p, msg)
    ensures !refused ==>
              var span := Span(fs[k], CountAt(msg, fs[k], p));
              var next := p + fs[k].Head() + span;
              && (Parses(fs, k, p, msg) <==> Parses(fs, k + 1, next, msg))
              && next + HeadsFrom(fs, k + 1) <= |msg|
              && (VarsBefore(fs, k + 1) < numVar ==> newSize == min + |msg| - next - HeadsFrom(fs, k + 1))
              && (VarsBefore(fs, k + 1) == numVar ==> next + HeadsFrom(fs, k + 1) == |msg|)
              && (k + 1 < |fs| ==> delta == span)
  {
    hide Align4, ArgSize, CountAt, Scaled, SizeRefused, Span, Sub32;
    var pos := VarsBefore(fs, k);
    var count := ReadCount(msg, fs[k], p);
    LastVariable(fs, k, maxPos);
    var last := pos == maxPos || pos + 1 == numVar;
    RefusalIsUnparsable(fs, k, p, msg, size, min, last);
    delta := if pos == maxPos then 0 else ArgSize(fs[k].elem, count);
    refused := SizeRefused(size, min, fs[k], count, last);
    newSize := if refused || last then size else Sub32(size, delta);
  }

  /** The check both stubs emit over the arguments: WriteCheckMsgSize for each variable field and
      the pointer adjustment once a later field needs it.  `size` starts as msgh_size and has
      each accepted array subtracted from it; the pointers In0P, In1P, ... (Out0P, Out1P, ...)
      are computed from the counts alone.

      The check succeeds exactly on the messages the reference parser accepts; the counts it
      reads lie inside the message, and each pointer plus a declared offset is the position at
      which the parser finds that field. */
  method CheckSizes(base: nat, fs: seq<Field>, msg: seq<byte>) returns (ok: bool, ptrs: seq<int>)
    requires WellFormed(fs) && SizeOf(base, fs) < WORD && |msg| < WORD
    requires VarsBefore(fs, |fs|) == 0 ==> |msg| == SizeOf(base, fs)
    requires VarsBefore(fs, |fs|) > 0 ==> MinSize(base, fs) <= |msg| <= SizeOf(base, fs)
    ensures ok <==> Parses(fs, 0, base, msg)
    ensures ok ==> forall k :: 0 <= k < |fs| ==> PointsAt(base, fs, msg, ptrs, k)
  {
    hide CountAt, Span, Parses, AreasFrom, HeadsFrom, Field.Head, Field.Area, VarsBefore, Offset, ParsedAt, Pointers;
    var pos, numVar, maxPos := CheckVariable(fs);
    var sizeDelta := SizeDelta(0, base, fs);
    var min := SizeOf(base, fs) - sizeDelta;
    StructIsMinPlusAreas(base, fs, |fs|);
    Ends(base, fs, msg);
    if numVar == 0 {
      NoAreasLeft(fs, 0);
    }
    var size: u32, delta: u32, lastVar := |msg|, 0, -1;
    ptrs := [0];
    ghost var p := base;
    assert Pointers(base, fs, msg, ptrs, 0, -1, 0) by { PointersStart(base, fs, msg); }
    for k := 0 to |fs|
      invariant p == ParsedAt(base, fs, msg, k) && Parses(fs, 0, base, msg) == Parses(fs, k, p, msg)
      invariant p + HeadsFrom(fs, k) <= |msg|
      invariant VarsBefore(fs, k) < numVar ==> size == min + |msg| - p - HeadsFrom(fs, k)
      invariant VarsBefore(fs, k) == numVar ==> p + HeadsFrom(fs, k) == |msg|
      invariant Pointers(base, fs, msg, ptrs, k, lastVar, delta)
    {
      ptrs, lastVar := AdjustPointer(base, fs, msg, ptrs, k, pos, lastVar, delta);
      ghost var before := delta;
      AreasShrink(fs, k);
      VarsMonotone(fs, k + 1, |fs|);
      OneStep(base, fs, msg, k);
      if fs[k].Var? {
        var refused: bool;
        refused, size, delta := CheckMsgSize(fs, k, numVar, maxPos, min, msg, ptrs[pos[k]] + Offset(base, fs, k), size);
        if refused {
          return false, ptrs;
        }
        lastVar := k;
      } else {
        FixedStep(fs, k, p, msg);
      }
      PointersStep(base, fs, msg, ptrs, k, before, delta);
      p := ParsedAt(base, fs, msg, k + 1);
    }
    assert forall k :: 0 <= k < |fs| ==> PointsAt(base, fs, msg, ptrs, k) by {
      PointersEnd(base, fs, msg, ptrs, lastVar, delta);
    }
    ok := true;
  }

  lemma PointersStart(base: nat, fs: seq<Field>, msg: seq<byte>)
    ensures Pointers(base, fs, msg, [0], 0, -1, 0)
  {
  }

  lemma PointersEnd(base: nat, fs: seq<Field>, msg: seq<byte>, ptrs: seq<int>, lastVar: int, delta: u32)
    requires Pointers(base, fs, msg, ptrs, |fs|, lastVar, delta)
    ensures forall k :: 0 <= k < |fs| ==> PointsAt(base, fs, msg, ptrs, k)
  {
    hide PointsAt, VarsBefore, Offset, ParsedAt;
  }

  /** The pointers kept when field `k` is reached: every earlier field is found through its own, and
      if the last field was an array (`lastVar`), the next pointer is still to be computed. */
  ghost predicate Pointers(base: nat, fs: seq<Field>, msg: seq<byte>, ptrs: seq<int>, k: nat, lastVar: int, delta: u32)
    requires k <= |fs|
  {
    && (lastVar == -1 || (lastVar == k - 1 && fs[k - 1].Var?))
    && ptrs != [] && |ptrs| == VarsBefore(fs, k) + (if lastVar == -1 then 1 else 0)
    && (lastVar == -1 ==> ptrs[|ptrs| - 1] + Offset(base, fs, k) == ParsedAt(base, fs, msg, k))
    && (lastVar != -1 && k < |fs| ==>
          ptrs[|ptrs| - 1] + delta - fs[lastVar].Area() + Offset(base, fs, k) == ParsedAt(base, fs, msg, k))
    && (forall i :: 0 <= i < k ==> PointsAt(base, fs, msg, ptrs, i))
  }

  /** WriteAdjustRequestMsgPtr, WriteAdjustReplyMsgPtr: the next pointer, once a field needs it. */
  method AdjustPointer(base: nat, fs: seq<Field>, msg: seq<byte>, ptrs: seq<int>, k: nat, pos: seq<nat>, lastVar: int, delta: u32)
    returns (adjusted: seq<int>, pending: int)
    requires k < |fs| && Pointers(base, fs, msg, ptrs, k, lastVar, delta)
    requires |pos| == |fs| && forall i :: 0 <= i < |fs| ==> pos[i] == VarsBefore(fs, i)
    ensures pending == -1 && Pointers(base, fs, msg, adjusted, k, -1, delta) && PointsAt(base, fs, msg, adjusted, k)
  {
    hide CountAt, Span, Field.Head, Field.Area, VarsBefore, Offset, ParsedAt;
    adjusted, pending := ptrs, lastVar;
    if k > 0 {
      OneStep(base, fs, msg, k - 1);
    }
    if lastVar != -1 && pos[lastVar] < pos[k] {
      adjusted, pending := ptrs + [ptrs[pos[lastVar]] + delta - fs[lastVar].Area()], -1;
      forall i | 0 <= i < k
        ensures PointsAt(base, fs, msg, adjusted, i)
      {
        assert PointsAt(base, fs, msg, ptrs, i);
      }
    }
  }

  lemma PointersStep(base: nat, fs: seq<Field>, msg: seq<byte>, ptrs: seq<int>, k: nat, before: u32, delta: u32)
    requires k < |fs| && Pointers(base, fs, msg, ptrs, k, -1, before)
    requires PointsAt(base, fs, msg, ptrs, k)
    requires fs[k].Var? && k + 1 < |fs| ==> delta == Span(fs[k], CountAt(msg, fs[k], ParsedAt(base, fs, msg, k)))
    ensures Pointers(base, fs, msg, ptrs, k + 1, if fs[k].Var? then k else -1, delta)
  {
    hide CountAt, Span, Field.Head, VarsBefore, Offset, ParsedAt;
    OneStep(base, fs, msg, k);
  }

  /** A variable field numbered rtMaxRequestPos is the last field; one numbered below it is the
      last variable field exactly when its successor number is the count of variable fields. */
  lemma LastVariable(fs: seq<Field>, k: nat, maxPos: nat)
    requires k < |fs| && fs[k].Var? && maxPos == VarsBefore(fs, |fs| - 1)
    ensures VarsBefore(fs, k) == maxPos <==> k == |fs| - 1
    ensures VarsBefore(fs, k) + 1 <= VarsBefore(fs, |fs|)
  {
    VarsMonotone(fs, k + 1, |fs|);
    if k < |fs| - 1 {
      VarsMonotone(fs, k + 1, |fs| - 1);
    }
  }
}
