/** The request direction: the client stub packs, the server stub checks and extracts. */
module MigRequest {
  import opened Bytes
  import opened MigLayout
  import opened MigMessage

  const HEADER := 24   // sizeof(mach_msg_header_t)
  const BODY := 4      // sizeof(mach_msg_body_t): the descriptor count
  const KERN_SUCCESS: u32 := 0
  const NDR_SIZE := 8
  const RETCODE := HEADER + NDR_SIZE        // offset of RetCode in mig_reply_error_t
  const ERROR_SIZE := RETCODE + 4           // sizeof(mig_reply_error_t)

  function RetCode(bytes: seq<byte>): u32
    requires ERROR_SIZE <= |bytes|
  {
    DecodeU32(bytes[RETCODE..RETCODE + 4])
  }

  /** A request or reply struct.  A complex one carries `kpds` descriptors, which are opaque
      fixed-size fields at the front of `fs`. */
  datatype Shape = Shape(simple: bool, kpds: u32, fs: seq<Field>) {
    function Base(): nat {
      if simple then HEADER else HEADER + BODY
    }

    function Size(): nat {
      SizeOf(Base(), fs)
    }

    ghost predicate Valid() {
      WellFormed(fs) && Size() < WORD && (simple ==> kpds == 0)
    }
  }

  /** A message as delivered: the complex bit, and msgh_size bytes. */
  datatype Message = Message(complex: bool, bytes: seq<byte>) {
    /** The kernel delivers at least a header, and a body word when the complex bit is set. */
    ghost predicate Deliverable() {
      HEADER <= |bytes| < WORD && (complex ==> HEADER + BODY <= |bytes|)
    }
  }

  /** mach_msg_header_t, mig_reply_error_t and the smallest message with descriptors. */
  lemma MachSizes()
    ensures Shape(true, 0, []).Size() == 24 && Shape(false, 1, []).Size() == 28
    ensures Shape(true, 0, [Fixed(NDR_SIZE), Fixed(4)]).Size() == ERROR_SIZE == 36 && RETCODE == 32
  {
    var fs := [Fixed(NDR_SIZE), Fixed(4)];
    assert Offset(24, fs, 1) == Offset(24, fs, 0) + 8;
  }

  // ----- packing one argument -----

  function Zeros(n: nat): (s: seq<byte>)
    ensures |s| == n && forall i :: 0 <= i < n ==> s[i] == 0
  {
    seq(n, _ => 0)
  }

  /** The bytes WritePackArgValueNormal stores as data.  The zero-filling variant of mig_strncpy
      also clears the rest of a string's declared area. */
  function Stored(f: Field, v: Value, zerofill: bool): (s: seq<byte>)
    requires f.WellFormed() && Fits(f, v)
    ensures |Payload(f, v)| <= |s| && s[..|Payload(f, v)|] == Payload(f, v)
  {
    if v.Text? && zerofill then Payload(f, v) + Zeros(f.Room() - |Payload(f, v)|) else Payload(f, v)
  }

  /** Bytes of a fixed field without its padding. */
  function Width(f: Field): nat
    requires !f.Var?
  {
    match f
    case Fixed(bytes) => bytes
    case Chars(max) => max
  }

  lemma StoredFits(f: Field, v: Value, zerofill: bool)
    requires f.WellFormed() && Fits(f, v) && !TooLarge(f, v)
    ensures f.Var? ==> |Stored(f, v, zerofill)| <= Scaled(f.elem, f.max) <= f.Area()
    ensures f.Var? ==> Scaled(f.elem, f.max) + MachinePadding(Scaled(f.elem, f.max)) == f.Area()
    ensures !f.Var? ==> |Stored(f, v, zerofill)| <= Width(f) && Width(f) + MachinePadding(Width(f)) == f.Head()
    ensures f.Var? && f.Area() < WORD ==> Count(f, v) < WORD
  {
    hide Scaled, Align4;
    if f.Var? {
      PaddingCompletesWord(Scaled(f.elem, f.max));
      if !f.text {
        ScaledMonotone(f.elem, v.count, f.max);
      }
    } else {
      PaddingCompletesWord(Width(f));
    }
  }

  lemma StoredBegins(f: Field, v: Value, zerofill: bool)
    requires f.WellFormed() && Fits(f, v)
    ensures |Payload(f, v)| <= |Stored(f, v, zerofill)| && Stored(f, v, zerofill)[..|Payload(f, v)|] == Payload(f, v)
  {
    hide Payload;
  }

  lemma StoredCarries(m: seq<byte>, at: nat, f: Field, v: Value, zerofill: bool)
    requires f.WellFormed() && Fits(f, v)
    requires var s := Stored(f, v, zerofill);
             var p := if f.Var? then at + f.Head() else at;
             p + |s| <= |m| && m[p..p + |s|] == s
    requires f.Var? ==> Count(f, v) < WORD && at + f.Head() <= |m|
                        && m[at + f.Head() - 4..at + f.Head()] == EncodeU32(Count(f, v))
    ensures CarriesAt(m, at, f, v)
  {
    hide DecodeU32, EncodeU32, Payload, Count, Fits, Stored, Field.Head;
    var data, s := Payload(f, v), Stored(f, v, zerofill);
    var p := if f.Var? then at + f.Head() else at;
    assert |data| <= |s| && s[..|data|] == data by { StoredBegins(f, v, zerofill); }
    TextHead(f);
    SliceOfSlice(m, p, p + |s|, |data|);
    if f.Var? {
      DecodeEncodeU32(Count(f, v));
    }
  }

  /** Behind the data of the declared maximum, up to the next word, there are zeros, and so there are in
      front of a string's count. */
  ghost predicate PadIsZero(m: seq<byte>, at: nat, f: Field) {
    && at + f.Head() + f.Area() <= |m|
    && (!f.Var? ==> forall i :: at + Width(f) <= i < at + f.Head() ==> m[i] == 0)
    && (f.Var? ==> forall i :: at + f.Head() + Scaled(f.elem, f.max) <= i < at + f.Head() + f.Area() ==> m[i] == 0)
    && (f.Var? && f.text ==> forall i :: at <= i < at + 4 ==> m[i] == 0)
  }

  /** WritePackArgValueNormal at the struct address `at`: the data, the zeroed padding behind the
      declared maximum, and the count (with the offset word of a string) in front of the data.
      Only the argument's own part of the struct changes, and the argument is carried at `at`. */
  method PackField(buf: array<byte>, at: nat, f: Field, v: Value, zerofill: bool)
    requires f.WellFormed() && Fits(f, v) && !TooLarge(f, v) && f.Area() < WORD
    requires at + f.Head() + f.Area() <= buf.Length
    modifies buf
    ensures forall i :: 0 <= i < at || at + f.Head() + f.Area() <= i < buf.Length ==> buf[i] == old(buf[i])
    ensures CarriesAt(buf[..], at, f, v)
    ensures PadIsZero(buf[..], at, f)
  {
    hide Align4, Scaled, MachinePadding, Field.Area, CarriesAt, EncodeU32, Fits, Payload, Count, PadIsZero;
    StoredFits(f, v, zerofill);
    var data := Stored(f, v, zerofill);
    if !f.Var? {
      Store(buf, at, data);
      ghost var before := buf[..];
      Store(buf, at + Width(f), Zeros(MachinePadding(Width(f))));
      SliceAgrees(before, buf[..], at, at + |data|);
    } else {
      PackVariable(buf, at, f.text, data, Scaled(f.elem, f.max), Count(f, v));
    }
    StoredCarries(buf[..], at, f, v, zerofill);
    PadsAreZero(buf[..], at, f);
  }

  lemma PadsAreZero(m: seq<byte>, at: nat, f: Field)
    requires at + f.Head() + f.Area() <= |m|
    requires !f.Var? ==>
               forall i :: at + Width(f) <= i < at + Width(f) + MachinePadding(Width(f)) && i < |m| ==> m[i] == 0
    requires f.Var? ==>
               var pad := at + (if f.text then 8 else 4) + Scaled(f.elem, f.max);
               forall i :: pad <= i < pad + MachinePadding(Scaled(f.elem, f.max)) && i < |m| ==> m[i] == 0
    requires f.Var? && f.text ==> forall i :: at <= i < at + 4 ==> m[i] == 0
    ensures PadIsZero(m, at, f)
  {
    hide Scaled, Align4, MachinePadding;
    if f.Var? {
      PaddingCompletesWord(Scaled(f.elem, f.max));
    } else {
      PaddingCompletesWord(Width(f));
    }
  }

  /** A variable argument: data, padding behind the maximum, count in front. */
  method PackVariable(buf: array<byte>, at: nat, text: bool, data: seq<byte>, typeSize: nat, count: u32)
    requires |data| <= typeSize
    requires at + (if text then 8 else 4) + typeSize + MachinePadding(typeSize) <= buf.Length
    modifies buf
    ensures var end := at + (if text then 8 else 4) + typeSize + MachinePadding(typeSize);
            forall i :: 0 <= i < at || end <= i < buf.Length ==> buf[i] == old(buf[i])
    ensures var head := if text then 8 else 4;
            && buf[at + head - 4..at + head] == EncodeU32(count)
            && buf[at + head..at + head + |data|] == data
    ensures text ==> forall i :: at <= i < at + 4 ==> buf[i] == 0
    ensures var pad := at + (if text then 8 else 4) + typeSize;
            forall i :: pad <= i < pad + MachinePadding(typeSize) ==> buf[i] == 0
  {
    hide EncodeU32, MachinePadding;
    var head := if text then 8 else 4;
    Store(buf, at + head, data);
    ghost var before := buf[..];
    Store(buf, at + head + typeSize, Zeros(MachinePadding(typeSize)));
    if text {
      Store(buf, at, Zeros(4));
    }
    Store(buf, at + head - 4, EncodeU32(count));
    SliceAgrees(before, buf[..], at + head, at + head + |data|);
  }

  // ----- packing the whole request -----

  lemma PackStep(base: nat, fs: seq<Field>, vs: seq<Value>, k: nat)
    requires WellFormed(fs) && FitAll(fs, vs) && k < |fs|
    ensures VarsBefore(fs, k + 1) == VarsBefore(fs, k) + if fs[k].Var? then 1 else 0
    ensures Position(base, fs, vs, k + 1) == Position(base, fs, vs, k) + fs[k].Head() + Grown(fs[k], vs[k])
    ensures Shift(fs, vs, k + 1) == Shift(fs, vs, k) + Grown(fs[k], vs[k]) - fs[k].Area()
    ensures GrownBefore(fs, vs, k + 1) == GrownBefore(fs, vs, k) + Grown(fs[k], vs[k])
    ensures !fs[k].Var? ==> Grown(fs[k], vs[k]) == 0 && fs[k].Area() == 0
  {
  }

  lemma PackStart(base: nat, fs: seq<Field>, vs: seq<Value>)
    requires WellFormed(fs) && FitAll(fs, vs)
    ensures Position(base, fs, vs, 0) == base && Shift(fs, vs, 0) == 0 == GrownBefore(fs, vs, 0)
    ensures VarsBefore(fs, 0) == 0
  {
  }

  /** The struct has room for field `k` at its shifted place, and the size never wraps. */
  lemma PackRoom(base: nat, fs: seq<Field>, vs: seq<Value>, k: nat)
    requires WellFormed(fs) && FitAll(fs, vs) && k <= |fs|
    requires forall i :: 0 <= i < k ==> !Oversized(fs[i], vs[i])
    ensures Shift(fs, vs, k) + Offset(base, fs, k) == Position(base, fs, vs, k)
    ensures base <= Position(base, fs, vs, k) <= Offset(base, fs, k)
    ensures MinSize(base, fs) + GrownBefore(fs, vs, k) <= SizeOf(base, fs)
    ensures k < |fs| ==> Position(base, fs, vs, k) + fs[k].Head() + fs[k].Area() <= SizeOf(base, fs)
  {
    hide Position, Shift, GrownBefore, Field.Head, Field.Area;
    ShiftedOffset(base, fs, vs, k);
    PositionWithinStruct(base, fs, vs, k);
    StructIsMinPlusAreas(base, fs, k);
    StructIsMinPlusAreas(base, fs, |fs|);
  }

  lemma DeltaIsGrown(f: Field, v: Value)
    requires f.WellFormed() && Fits(f, v) && f.Var? && !Oversized(f, v) && f.Area() < WORD
    ensures Count(f, v) < WORD && ArgSize(f.elem, Count(f, v)) == Grown(f, v)
  {
    hide Align4, Scaled, ArgSize;
    PayloadIsCounted(f, v);
    OversizedExactly(f, v);
    StoredFits(f, v, false);
    ArgSizeIsAligned(f.elem, Count(f, v));
  }

  lemma {:induction false} AreaBounded(base: nat, fs: seq<Field>, k: nat, n: nat)
    requires k < n <= |fs|
    ensures fs[k].Area() <= Offset(base, fs, n)
    decreases n
  {
    if k < n - 1 {
      AreaBounded(base, fs, k, n - 1);
    }
  }

  /** The msgh_size statement of WriteAdjustMsgSize and WriteFinishMsgSize: the first array is
      added to the minimum size, later ones to the running size. */
  function Enlarged(size: u32, first: bool, min: nat, delta: u32): u32 {
    Add32(if first then min else size, delta)
  }

  /** WriteAdjustMsgSize, and WriteFinishMsgSize, which needs no new pointer: account for array
      `k` in msgh_size and move the struct pointer.  An oversized string is accounted for like any other. */
  method AdjustMsgSize(base: nat, fs: seq<Field>, vs: seq<Value>, k: nat, min: nat, size: u32, ptr: int)
    returns (newSize: u32, newPtr: int)
    requires WellFormed(fs) && FitAll(fs, vs) && k < |fs| && fs[k].Var? && SizeOf(base, fs) < WORD
    requires (forall i :: 0 <= i < k ==> !Oversized(fs[i], vs[i])) && !TooLarge(fs[k], vs[k])
    requires min == MinSize(base, fs) && ptr == Shift(fs, vs, k)
    requires VarsBefore(fs, k) > 0 ==> size == min + GrownBefore(fs, vs, k)
    ensures Count(fs[k], vs[k]) < WORD
    ensures newSize == Add32(min + GrownBefore(fs, vs, k), ArgSize(fs[k].elem, Count(fs[k], vs[k])))
    ensures newPtr == Shift(fs, vs, k) + ArgSize(fs[k].elem, Count(fs[k], vs[k])) - fs[k].Area()
    ensures !Oversized(fs[k], vs[k]) ==> newSize == min + GrownBefore(fs, vs, k + 1) && newPtr == Shift(fs, vs, k + 1)
  {
    hide Position, Shift, GrownBefore, Grown, VarsBefore, Offset, Field.Head, Field.Area, ArgSize, Payload, Fits;
    AreaBounded(base, fs, k, |fs|);
    StoredFits(fs[k], vs[k], false);
    FirstArray(fs, vs, k);
    PackStep(base, fs, vs, k);
    PackRoom(base, fs, vs, k);
    var delta := ArgSize(fs[k].elem, Count(fs[k], vs[k]));
    newSize := Enlarged(size, VarsBefore(fs, k) == 0, min, delta);
    newPtr := ptr + delta - fs[k].Area();
    if !Oversized(fs[k], vs[k]) {
      DeltaIsGrown(fs[k], vs[k]);
      PackRoom(base, fs, vs, k + 1);
    }
  }

  /** How the packing of a request goes: all packed, MIG_ARRAY_TOO_LARGE, or the string of `field` has a
      count beyond the maximum, which no statement of the client tests.  Then its count ends at
      `counted`, msgh_size is `size` so far, and the next argument is packed at `next`, inside the
      struct or not. */
  datatype Packing = Packed(size: u32) | TooMany | Overrun(field: nat, counted: int, size: u32, next: int)

  /** Where an oversized string leaves the client: everything up to its count is in place, and nothing
      in front of `next` is written again. */
  ghost predicate RunsOver(base: nat, fs: seq<Field>, vs: seq<Value>, r: Packing, m: seq<byte>)
    requires WellFormed(fs) && FitAll(fs, vs) && r.Overrun?
  {
    var k := r.field;
    && FirstOversized(fs, vs, k) && fs[k].text && Carries(m, base, fs, vs, k + 1) && Count(fs[k], vs[k]) < WORD
    && var delta := ArgSize(fs[k].elem, Count(fs[k], vs[k]));
       && r.size == Add32(MinSize(base, fs) + GrownBefore(fs, vs, k), delta)
       && r.counted == Position(base, fs, vs, k) + fs[k].Head() && r.next == r.counted + delta
  }

  /** WriteRequestArgs: the client's code for all arguments.  Before the first argument behind an
      array, the array's size is added to msgh_size and InP moves by size minus maximum; after
      the last argument only msgh_size is updated.  A counted array beyond its maximum makes the
      stub return MIG_ARRAY_TOO_LARGE; an oversized string makes it run over.  Without either,
      every argument ends up at its tight position behind the header and the size is that of
      exactly those arguments. */
  method PackArgs(base: nat, fs: seq<Field>, vs: seq<Value>, zerofill: bool, buf: array<byte>)
    returns (r: Packing)
    requires WellFormed(fs) && FitAll(fs, vs) && buf.Length == SizeOf(base, fs) < WORD
    modifies buf
    ensures r.Packed? <==> InBounds(fs, vs)
    ensures r.Packed? ==> r.size == Position(base, fs, vs, |fs|) <= buf.Length
    ensures r.Packed? ==> Carries(buf[..], base, fs, vs, |fs|)
    ensures r.TooMany? ==> exists k: nat :: FirstOversized(fs, vs, k) && TooLarge(fs[k], vs[k])
    ensures r.Overrun? ==> RunsOver(base, fs, vs, r, buf[..])
    ensures forall i :: 0 <= i < base && i < buf.Length ==> buf[i] == old(buf[i])
  {
    hide Position, Shift, GrownBefore, VarsBefore, Offset, Field.Head, Field.Area, Carries;
    hide HeadsFrom, CarriesAt, Oversized, TooLarge, FirstOversized, RunsOver, ArgSize, Count, Payload, Grown, Fits, Add32;
    var pos, numVar, maxPos := CheckVariable(fs);
    var sizeDelta := SizeDelta(0, base, fs);
    var min := SizeOf(base, fs) - sizeDelta;
    var inP, lastVar, size: u32 := 0, -1, 0;
    PackStart(base, fs, vs);
    CarriesNothing(buf[..], base, fs, vs);
    for k := 0 to |fs|
      invariant forall i :: 0 <= i < k ==> !Oversized(fs[i], vs[i])
      invariant lastVar == -1 || (lastVar == k - 1 && fs[k - 1].Var?)
      invariant inP == Shift(fs, vs, if lastVar == -1 then k else lastVar)
      invariant var done := if lastVar == -1 then k else lastVar;
                VarsBefore(fs, done) > 0 ==> size == min + GrownBefore(fs, vs, done)
      invariant Carries(buf[..], base, fs, vs, k)
      invariant forall i :: 0 <= i < base && i < buf.Length ==> buf[i] == old(buf[i])
    {
      if lastVar != -1 {
        PackStep(base, fs, vs, lastVar);
        NotTooLarge(fs[lastVar], vs[lastVar]);
        if pos[lastVar] < pos[k] {
          size, inP := AdjustMsgSize(base, fs, vs, lastVar, min, size, inP);
          lastVar := -1;
        }
      }
      NotTooLarge(fs[k], vs[k]);
      if TooLarge(fs[k], vs[k]) {
        IsFirstOversized(fs, vs, k);
        return TooMany;
      }
      PackArg(base, fs, vs, k, inP, zerofill, buf);
      PackStep(base, fs, vs, k);
      if Oversized(fs[k], vs[k]) {
        // the string is counted before anything else is packed
        var counted := inP + Offset(base, fs, k) + fs[k].Head();
        size, inP := AdjustMsgSize(base, fs, vs, k, min, size, inP);
        r := Overrun(k, counted, size, inP + Offset(base, fs, k + 1));
        IsFirstOversized(fs, vs, k);
        HasRunOver(base, fs, vs, r, buf[..]);
        return;
      }
      if fs[k].Var? {
        lastVar := k;
      }
    }
    PackRoom(base, fs, vs, |fs|);
    ShiftedOffset(base, fs, vs, |fs|);
    HeadsEnd(fs);
    if lastVar != -1 {
      // WriteFinishMsgSize
      NotTooLarge(fs[lastVar], vs[lastVar]);
      size, inP := AdjustMsgSize(base, fs, vs, lastVar, min, size, inP);
      PackStep(base, fs, vs, lastVar);
    }
    if numVar == 0 {
      // the size passed to mach_msg is sizeof(Request)
      size := SizeOf(base, fs);
      NothingGrows(base, fs, vs, |fs|);
    }
    r := Packed(size);
  }

  lemma IsFirstOversized(fs: seq<Field>, vs: seq<Value>, k: nat)
    requires WellFormed(fs) && FitAll(fs, vs) && k < |fs|
    requires (forall i :: 0 <= i < k ==> !Oversized(fs[i], vs[i])) && Oversized(fs[k], vs[k])
    ensures FirstOversized(fs, vs, k) && !InBounds(fs, vs)
  {
    hide Oversized;
  }

  lemma HasRunOver(base: nat, fs: seq<Field>, vs: seq<Value>, r: Packing, m: seq<byte>)
    requires WellFormed(fs) && FitAll(fs, vs) && r.Overrun? && FirstOversized(fs, vs, r.field)
    requires var k := r.field;
             && fs[k].text && Carries(m, base, fs, vs, k + 1) && Count(fs[k], vs[k]) < WORD
             && var delta := ArgSize(fs[k].elem, Count(fs[k], vs[k]));
                && r.size == Add32(MinSize(base, fs) + GrownBefore(fs, vs, k), delta)
                && r.counted == Shift(fs, vs, k) + Offset(base, fs, k) + fs[k].Head()
                && r.next == Shift(fs, vs, k) + delta - fs[k].Area() + Offset(base, fs, k + 1)
    ensures RunsOver(base, fs, vs, r, m)
  {
    hide Position, Shift, Offset, GrownBefore, Field.Head, Field.Area, Carries, ArgSize, Count;
    OneStep(base, fs, [], r.field);
    PackRoom(base, fs, vs, r.field);
  }

  lemma NotTooLarge(f: Field, v: Value)
    requires f.WellFormed() && Fits(f, v)
    ensures TooLarge(f, v) ==> Oversized(f, v)
    ensures Oversized(f, v) && !TooLarge(f, v) ==> f.Var? && f.text
  {
  }

  /** One argument, at its declared offset from the moved pointer. */
  method PackArg(base: nat, fs: seq<Field>, vs: seq<Value>, k: nat, inP: int, zerofill: bool, buf: array<byte>)
    requires WellFormed(fs) && FitAll(fs, vs) && k < |fs| && buf.Length == SizeOf(base, fs) < WORD
    requires (forall i :: 0 <= i < k ==> !Oversized(fs[i], vs[i])) && !TooLarge(fs[k], vs[k])
    requires inP == Shift(fs, vs, k)
    requires Carries(buf[..], base, fs, vs, k)
    modifies buf
    ensures Carries(buf[..], base, fs, vs, k + 1)
    ensures forall i :: 0 <= i < base && i < buf.Length ==> buf[i] == old(buf[i])
  {
    hide Position, Shift, GrownBefore, VarsBefore, Offset, Field.Head, Field.Area, Carries, CarriesAt;
    AreaBounded(base, fs, k, |fs|);
    PackRoom(base, fs, vs, k);
    ghost var before := buf[..];
    PackField(buf, inP + Offset(base, fs, k), fs[k], vs[k], zerofill);
    CarriesOneMore(before, buf[..], base, fs, vs, k);
  }

  lemma HeadsEnd(fs: seq<Field>)
    ensures HeadsFrom(fs, |fs|) == 0
  {
  }

  lemma CarriesNothing(m: seq<byte>, base: nat, fs: seq<Field>, vs: seq<Value>)
    requires WellFormed(fs) && FitAll(fs, vs)
    ensures Carries(m, base, fs, vs, 0)
  {
  }

  lemma CarriesOneMore(m: seq<byte>, m': seq<byte>, base: nat, fs: seq<Field>, vs: seq<Value>, k: nat)
    requires WellFormed(fs) && FitAll(fs, vs) && k < |fs| && Carries(m, base, fs, vs, k)
    requires var p := Position(base, fs, vs, k);
             p <= |m| == |m'| && (forall i :: 0 <= i < p ==> m[i] == m'[i]) && CarriesAt(m', p, fs[k], vs[k])
    ensures Carries(m', base, fs, vs, k + 1)
  {
    hide CarriesAt, Position;
    CarriesFrame(m, m', base, fs, vs, k, Position(base, fs, vs, k));
  }

  /** Nothing has grown before the first array. */
  lemma {:induction false} FirstArray(fs: seq<Field>, vs: seq<Value>, k: nat)
    requires WellFormed(fs) && FitAll(fs, vs) && k <= |fs|
    ensures VarsBefore(fs, k) == 0 ==> GrownBefore(fs, vs, k) == 0
  {
    if k != 0 {
      FirstArray(fs, vs, k - 1);
    }
  }

  lemma {:induction false} NothingGrows(base: nat, fs: seq<Field>, vs: seq<Value>, k: nat)
    requires WellFormed(fs) && FitAll(fs, vs) && k <= |fs| && VarsBefore(fs, k) == 0
    ensures Position(base, fs, vs, k) == Offset(base, fs, k)
  {
    if k != 0 {
      NothingGrows(base, fs, vs, k - 1);
    }
  }

  /** The message is never larger than the struct, and as large exactly when every array fills
      its word-aligned area. */
  lemma {:induction false} SizeWithinStruct(base: nat, fs: seq<Field>, vs: seq<Value>, k: nat)
    requires WellFormed(fs) && InBounds(fs, vs) && k <= |fs|
    ensures Position(base, fs, vs, k) <= Offset(base, fs, k)
    ensures Position(base, fs, vs, k) == Offset(base, fs, k) <==>
            forall i :: 0 <= i < k && fs[i].Var? ==> Grown(fs[i], vs[i]) == fs[i].Area()
  {
    hide Grown, Field.Area, Field.Head;
    PositionWithinStruct(base, fs, vs, k);
    if k != 0 {
      SizeWithinStruct(base, fs, vs, k - 1);
      PackStep(base, fs, vs, k - 1);
      if fs[k - 1].Var? {
        PayloadIsCounted(fs[k - 1], vs[k - 1]);
      }
    }
  }

  /** With every count maximal, the message is the whole struct. */
  lemma {:induction false} MaximalCountsFill(base: nat, fs: seq<Field>, vs: seq<Value>, k: nat)
    requires WellFormed(fs) && FitAll(fs, vs) && k <= |fs|
    requires forall i :: 0 <= i < k && fs[i].Var? ==> Count(fs[i], vs[i]) == fs[i].max
    ensures Position(base, fs, vs, k) == Offset(base, fs, k)
  {
    hide Count;
    if k != 0 {
      MaximalCountsFill(base, fs, vs, k - 1);
      PackStep(base, fs, vs, k - 1);
    }
  }

  // ----- the server's side -----

  /** memchr over the part of the string's declared area that lies inside the message. */
  predicate HasNul(msg: seq<byte>, at: nat, max: nat) {
    at <= |msg| && 0 in msg[at..if |msg| - at < max then |msg| else at + max]
  }

  ghost predicate TextsEnd(base: nat, fs: seq<Field>, msg: seq<byte>, n: nat)
    requires n <= |fs|
  {
    forall k {:trigger ParsedAt(base, fs, msg, k)} :: 0 <= k < n && IsText(fs[k]) ==>
      HasNul(msg, ParsedAt(base, fs, msg, k) + CharsAt(fs[k]), fs[k].Room())
  }

  /** itString: a C string, varying or not. */
  predicate IsText(f: Field) {
    f.Chars? || (f.Var? && f.text)
  }

  /** Where the characters stand in the field. */
  function CharsAt(f: Field): nat
    requires IsText(f)
  {
    if f.Chars? then 0 else 8
  }

  /** What a well-formed message for `s` is, without reference to pointers or running sizes.  Code for
      a kernel server (`kernel`) does not insist on terminated strings. */
  ghost predicate Accepts(s: Shape, m: Message, kernel: bool)
    requires m.Deliverable()
  {
    && m.complex == !s.simple
    && (m.complex ==> DecodeU32(m.bytes[HEADER..HEADER + BODY]) == s.kpds)
    && Parses(s.fs, 0, s.Base(), m.bytes)
    && (kernel || TextsEnd(s.Base(), s.fs, m.bytes, |s.fs|))
  }

  /** A message of the form of an error reply, as a client with a RetCode argument (`retc`) sends it. */
  predicate IsErrorRequest(s: Shape, m: Message, retc: bool) {
    retc && !s.simple && !m.complex && |m.bytes| == ERROR_SIZE
  }

  /** WriteCheckHead: the test on the complex bit, the descriptor count and the range of sizes, with an
      alternative for a routine that has a RetCode argument. */
  method CheckHead(s: Shape, m: Message, retc: bool) returns (ok: bool)
    requires s.Valid() && m.Deliverable()
    ensures ok <==>
            || (m.complex == !s.simple
                && (m.complex ==> DecodeU32(m.bytes[HEADER..HEADER + BODY]) == s.kpds)
                && (if VarsBefore(s.fs, |s.fs|) > 0
                    then MinSize(s.Base(), s.fs) <= |m.bytes| <= s.Size()
                    else |m.bytes| == s.Size()))
            || (IsErrorRequest(s, m, retc) && RetCode(m.bytes) != KERN_SUCCESS)
  {
    hide DecodeU32;
    var pos, numVar, maxPos := CheckVariable(s.fs);
    var delta := SizeDelta(HEADER, s.Base(), s.fs);
    var wrongSize := if numVar > 0 then |m.bytes| < s.Size() - delta || |m.bytes| > s.Size() else |m.bytes| != s.Size();
    if s.simple {
      ok := !(m.complex || wrongSize);
    } else {
      ok := !((!m.complex || DecodeU32(m.bytes[HEADER..HEADER + BODY]) != s.kpds || wrongSize) &&
              (!retc || m.complex || |m.bytes| != ERROR_SIZE || RetCode(m.bytes) == KERN_SUCCESS));
    }
  }

  /** WriteCheckRequest: accepts exactly the well-formed messages and returns In0P, In1P, ...  The stub
      has dealt with error requests before it calls the check. */
  method CheckRequest(s: Shape, m: Message, retc: bool, kernel: bool) returns (ok: bool, ptrs: seq<int>)
    requires s.Valid() && m.Deliverable() && !IsErrorRequest(s, m, retc)
    ensures ok <==> Accepts(s, m, kernel)
    ensures ok ==> forall k :: 0 <= k < |s.fs| ==> PointsAt(s.Base(), s.fs, m.bytes, ptrs, k)
  {
    hide DecodeU32, Parses, VarsBefore, HeadsFrom, AreasFrom, Offset, ParsedAt, TextsEnd;
    var base, fs, msg := s.Base(), s.fs, m.bytes;
    var headOk := CheckHead(s, m, retc);
    if Parses(fs, 0, base, msg) {
      ParsesNeedsHeads(fs, 0, base, msg);
      StructIsMinPlusAreas(base, fs, |fs|);
      Ends(base, fs, msg);
      if VarsBefore(fs, |fs|) == 0 {
        NoAreasLeft(fs, 0);
      }
    }
    if !headOk {
      return false, [];
    }
    ok, ptrs := CheckSizes(base, fs, msg);
    if ok {
      ok := CheckTexts(base, fs, msg, ptrs, kernel);
    }
  }

  /** WriteStringTerminatorCheck.  The variant for kernel servers compares what strnlen returns with
      a length that it cannot reach, so it never refuses. */
  method CheckTexts(base: nat, fs: seq<Field>, msg: seq<byte>, ptrs: seq<int>, kernel: bool) returns (ok: bool)
    requires WellFormed(fs) && Parses(fs, 0, base, msg)
    requires forall k :: 0 <= k < |fs| ==> PointsAt(base, fs, msg, ptrs, k)
    ensures ok <==> kernel || TextsEnd(base, fs, msg, |fs|)
  {
    hide ParsedAt, VarsBefore, Offset, Parses, Field.Head, CString;
    for k := 0 to |fs|
      invariant kernel || TextsEnd(base, fs, msg, k)
    {
      assert PointsAt(base, fs, msg, ptrs, k);
      if IsText(fs[k]) {
        ParsedInside(base, fs, msg, k);
        TextHead(fs[k]);
        var at := ptrs[VarsBefore(fs, k)] + Offset(base, fs, k) + CharsAt(fs[k]);
        var limit := if |msg| - at < fs[k].Room() then |msg| - at else fs[k].Room();
        var area := msg[at..at + limit];
        CStringFits(area);
        if if kernel then |CString(area)| >= fs[k].Room() + 1 else 0 !in area {
          return false;
        }
      }
    }
    ok := true;
  }

  lemma {:induction false} CStringFits(s: seq<byte>)
    ensures |CString(s)| <= |s|
  {
    if s != [] {
      CStringFits(s[1..]);
    }
  }

  lemma TextHead(f: Field)
    ensures f.Var? ==> f.Head() == if f.text then 8 else 4
    ensures IsText(f) ==> CharsAt(f) <= f.Head()
  {
  }

  lemma ParsedInside(base: nat, fs: seq<Field>, msg: seq<byte>, k: nat)
    requires WellFormed(fs) && k < |fs| && Parses(fs, 0, base, msg)
    ensures ParsedAt(base, fs, msg, k + 1) <= |msg|
    ensures ParsedAt(base, fs, msg, k) + fs[k].Head() +
            (if fs[k].Var? then Span(fs[k], CountAt(msg, fs[k], ParsedAt(base, fs, msg, k))) else 0) <= |msg|
  {
    hide CountAt, Span, Field.Head, Parses;
    ParsesFrom(base, fs, msg, k + 1);
    ParsesNeedsHeads(fs, k + 1, ParsedAt(base, fs, msg, k + 1), msg);
  }

  /** The characters of a C string: everything before the first NUL. */
  function CString(s: seq<byte>): seq<byte> {
    if s == [] || s[0] == 0 then [] else [s[0]] + CString(s[1..])
  }

  lemma {:induction false} CStringOf(chars: seq<byte>, s: seq<byte>)
    requires 0 !in chars && |chars| < |s| && s[..|chars|] == chars && s[|chars|] == 0
    ensures CString(s) == chars
  {
    if chars != [] {
      assert s[0] == chars[0];
      assert s[1..][..|chars| - 1] == chars[1..] by {
        assert s[1..][..|chars| - 1] == s[..|chars|][1..];
      }
      CStringOf(chars[1..], s[1..]);
    }
  }

  /** What a C string is that starts in front of `s` at the end of the message. */
  function TextFrom(s: seq<byte>): Value {
    if 0 in s then Text(CString(s)) else Runaway(s)
  }

  /** The value found at address `p` of the message. */
  function ValueAt(f: Field, msg: seq<byte>, p: nat): Value
    requires !f.Var? ==> p + Width(f) <= |msg|
    requires f.Var? ==> p + f.Head() + Scaled(f.elem, CountAt(msg, f, p)) <= |msg|
  {
    match f
    case Fixed(bytes) => Block(msg[p..p + bytes])
    case Chars(_) => TextFrom(msg[p..])
    case Var(text, elem, _) =>
      var at := p + f.Head();
      if text then TextFrom(msg[at..])
      else
        var count := CountAt(msg, f, p);
        Items(count, msg[at..at + Scaled(elem, count)])
  }

  /** What the server procedure is given for the client's `v`: the same value, a string being cut
      to the declared maximum less its terminator. */
  function Delivered(f: Field, v: Value): Value
    requires f.WellFormed() && Fits(f, v)
  {
    match v
    case Text(chars) =>
      RoomForNul(f);
      if |chars| < f.Room() then v else Text(chars[..f.Room() - 1])
    case _ => v
  }

  /** Blocks and arrays arrive as they are, and of a string as many characters as leave room for the NUL. */
  lemma DeliveredExactly(f: Field, v: Value)
    requires f.WellFormed() && Fits(f, v)
    ensures !v.Text? ==> Delivered(f, v) == v
    ensures v.Text? ==>
              && Delivered(f, v).Text? && Delivered(f, v).chars <= v.chars
              && |Delivered(f, v).chars| == if |v.chars| < f.Room() then |v.chars| else f.Room() - 1
  {
    hide Scaled;
    if v.Text? {
      RoomForNul(f);
    }
  }

  lemma CarriedValue(msg: seq<byte>, p: nat, f: Field, v: Value)
    requires f.WellFormed() && Fits(f, v) && !Oversized(f, v) && CarriesAt(msg, p, f, v)
    requires p + f.Head() + Grown(f, v) <= |msg|
    ensures !f.Var? ==> p + Width(f) <= |msg|
    ensures f.Var? ==> p + f.Head() + Scaled(f.elem, CountAt(msg, f, p)) <= |msg|
    ensures ValueAt(f, msg, p) == Delivered(f, v)
  {
    hide CountAt, Scaled, CString, Align4;
    if f.Var? {
      PayloadIsCounted(f, v);
    }
    if IsText(f) {
      CarriedText(msg, p, f, v);
    }
  }

  /** Where a string is carried, the characters before its NUL are those of the string, cut. */
  lemma CarriedText(msg: seq<byte>, p: nat, f: Field, v: Value)
    requires f.WellFormed() && Fits(f, v) && IsText(f) && CarriesAt(msg, p, f, v)
    ensures p + CharsAt(f) <= |msg| && TextFrom(msg[p + CharsAt(f)..]) == Delivered(f, v)
  {
    hide CountAt, CString, Field.Area, Align4, Scaled, Grown, Count, Span;
    var at, cut, s := p + CharsAt(f), Delivered(f, v).chars, Payload(f, v);
    assert s == cut + [0];
    SliceOfSlice(msg, at, at + |s|, |cut|);
    assert msg[at..][..|cut|] == msg[at..at + |cut|] == cut;
    assert msg[at..][|cut|] == msg[at..at + |s|][|cut|] == 0;
    CStringOf(cut, msg[at..]);
  }

  /** WriteExtractArg and WriteServerCallArg: the server procedure's arguments, each read through
      the pointer numbered like the argument. */
  method Extract(s: Shape, m: Message, ptrs: seq<int>, ghost kernel: bool) returns (vs: seq<Value>)
    requires s.Valid() && m.Deliverable() && Accepts(s, m, kernel)
    requires forall k :: 0 <= k < |s.fs| ==> PointsAt(s.Base(), s.fs, m.bytes, ptrs, k)
    ensures |vs| == |s.fs|
    ensures forall k :: 0 <= k < |vs| ==>
              Readable(s.fs[k], m.bytes, ParsedAt(s.Base(), s.fs, m.bytes, k)) &&
              vs[k] == ValueAt(s.fs[k], m.bytes, ParsedAt(s.Base(), s.fs, m.bytes, k))
    ensures !kernel ==> forall k :: 0 <= k < |vs| ==> !vs[k].Runaway?
  {
    hide ParsedAt, VarsBefore, Offset, Parses, TextsEnd, CountAt, ValueAt, DecodeU32;
    var base, fs, msg := s.Base(), s.fs, m.bytes;
    vs := [];
    for k := 0 to |fs|
      invariant |vs| == k
      invariant forall i :: 0 <= i < k ==>
        Readable(fs[i], msg, ParsedAt(base, fs, msg, i)) && vs[i] == ValueAt(fs[i], msg, ParsedAt(base, fs, msg, i))
      invariant !kernel ==> forall i :: 0 <= i < k ==> !vs[i].Runaway?
    {
      assert PointsAt(base, fs, msg, ptrs, k);
      ParsedReadable(base, fs, msg, k);
      if !kernel {
        EndedIsNoRunaway(base, fs, msg, k);
      }
      vs := vs + [ValueAt(fs[k], msg, ptrs[VarsBefore(fs, k)] + Offset(base, fs, k))];
    }
  }

  ghost predicate Readable(f: Field, msg: seq<byte>, p: nat) {
    && (!f.Var? ==> p + Width(f) <= |msg|)
    && (f.Var? ==> p + f.Head() + Scaled(f.elem, CountAt(msg, f, p)) <= |msg|)
  }

  lemma ParsedReadable(base: nat, fs: seq<Field>, msg: seq<byte>, k: nat)
    requires WellFormed(fs) && k < |fs| && Parses(fs, 0, base, msg)
    ensures Readable(fs[k], msg, ParsedAt(base, fs, msg, k))
  {
    hide ParsedAt, CountAt, Parses, Scaled;
    ParsedInside(base, fs, msg, k);
  }

  /** Where strings end inside their areas, none runs away. */
  lemma EndedIsNoRunaway(base: nat, fs: seq<Field>, msg: seq<byte>, k: nat)
    requires k < |fs| && TextsEnd(base, fs, msg, |fs|) && Readable(fs[k], msg, ParsedAt(base, fs, msg, k))
    ensures !ValueAt(fs[k], msg, ParsedAt(base, fs, msg, k)).Runaway?
  {
    hide ParsedAt, CountAt, Scaled, CString;
    var p := ParsedAt(base, fs, msg, k);
    TextHead(fs[k]);
    if IsText(fs[k]) {
      var at := p + CharsAt(fs[k]);
      assert HasNul(msg, at, fs[k].Room());
      NulInside(msg, at, fs[k].Room());
    }
  }

  lemma NulInside(msg: seq<byte>, at: nat, max: nat)
    requires HasNul(msg, at, max)
    ensures at <= |msg| && 0 in msg[at..]
  {
    var area := msg[at..if |msg| - at < max then |msg| else at + max];
    var i :| 0 <= i < |area| && area[i] == 0;
    assert msg[at..][i] == 0;
  }

  /** A message that only a kernel server accepts: its last string runs on behind it. */
  lemma KernelRunaway() returns (s: Shape, m: Message)
    ensures s.Valid() && m.Deliverable() && Accepts(s, m, true) && !Accepts(s, m, false)
    ensures |s.fs| == 1 && Readable(s.fs[0], m.bytes, ParsedAt(s.Base(), s.fs, m.bytes, 0))
    ensures ValueAt(s.fs[0], m.bytes, ParsedAt(s.Base(), s.fs, m.bytes, 0)) == Runaway([1, 1, 1, 1])
  {
    var ones := seq(28, _ => 1);
    s := Shape(true, 0, [Chars(4)]);
    m := Message(false, ones);
    assert ParsedAt(24, s.fs, ones, 0) == 24;
    assert Offset(24, s.fs, 1) == Offset(24, s.fs, 0) + 4;
    assert Parses(s.fs, 1, 28, ones);
    assert ones[24..] == [1, 1, 1, 1] && ones[24..28] == [1, 1, 1, 1];
    assert !HasNul(ones, ParsedAt(24, s.fs, ones, 0) + 0, 4);
    assert !TextsEnd(24, s.fs, ones, 1);
  }

  // ----- both sides together -----

  lemma CarriedTextEnds(msg: seq<byte>, p: nat, f: Field, v: Value)
    requires f.WellFormed() && Fits(f, v) && IsText(f) && CarriesAt(msg, p, f, v)
    ensures HasNul(msg, p + CharsAt(f), f.Room())
  {
    hide CountAt;
    var s := Payload(f, v);
    var at := p + CharsAt(f);
    var end := if |msg| - at < f.Room() then |msg| else at + f.Room();
    assert msg[at..end][|s| - 1] == msg[at..at + |s|][|s| - 1] == 0;
  }

  /** A message that carries in-bounds values and nothing more is well-formed, and the value found
      for each field is the one sent. */
  lemma CarriedIsAccepted(s: Shape, vs: seq<Value>, m: Message)
    requires s.Valid() && InBounds(s.fs, vs) && m.Deliverable()
    requires m.complex == !s.simple && (m.complex ==> DecodeU32(m.bytes[HEADER..HEADER + BODY]) == s.kpds)
    requires |m.bytes| == Position(s.Base(), s.fs, vs, |s.fs|)
    requires Carries(m.bytes, s.Base(), s.fs, vs, |s.fs|)
    ensures Accepts(s, m, false) && Accepts(s, m, true)
    ensures forall k :: 0 <= k < |s.fs| ==>
              Readable(s.fs[k], m.bytes, ParsedAt(s.Base(), s.fs, m.bytes, k)) &&
              ValueAt(s.fs[k], m.bytes, ParsedAt(s.Base(), s.fs, m.bytes, k)) == Delivered(s.fs[k], vs[k])
  {
    hide DecodeU32, CarriesAt, ParsedAt, Position, Parses, HasNul, ValueAt, CountAt;
    var base, fs, msg := s.Base(), s.fs, m.bytes;
    assert Position(base, fs, vs, 0) == base by { PackStart(base, fs, vs); }
    CarriedIsParsed(base, fs, vs, msg, 0);
    forall k | 0 <= k < |fs|
      ensures ParsedAt(base, fs, msg, k) == Position(base, fs, vs, k)
      ensures Readable(fs[k], msg, ParsedAt(base, fs, msg, k))
      ensures ValueAt(fs[k], msg, ParsedAt(base, fs, msg, k)) == Delivered(fs[k], vs[k])
      ensures IsText(fs[k]) ==> HasNul(msg, ParsedAt(base, fs, msg, k) + CharsAt(fs[k]), fs[k].Room())
    {
      CarriedAtParsed(base, fs, vs, msg, k);
      PositionMonotone(base, fs, vs, k + 1, |fs|);
      PackStep(base, fs, vs, k);
      CarriedValue(msg, Position(base, fs, vs, k), fs[k], vs[k]);
      if IsText(fs[k]) {
        CarriedTextEnds(msg, Position(base, fs, vs, k), fs[k], vs[k]);
      }
    }
  }

  /** The client stub up to mach_msg, on a stack buffer with arbitrary contents.  If it runs over, `m`
      is the struct at the moment when the string has been counted. */
  method Send(s: Shape, vs: seq<Value>, zerofill: bool, stack: seq<byte>) returns (r: Packing, m: Message)
    requires s.Valid() && FitAll(s.fs, vs) && |stack| == s.Size()
    ensures r.Packed? <==> InBounds(s.fs, vs)
    ensures r.Packed? ==> m.Deliverable() && |m.bytes| == Position(s.Base(), s.fs, vs, |s.fs|)
    ensures r.Packed? ==> m.complex == !s.simple
    ensures r.Packed? ==> (m.complex ==> DecodeU32(m.bytes[HEADER..HEADER + BODY]) == s.kpds)
    ensures r.Packed? ==> Carries(m.bytes, s.Base(), s.fs, vs, |s.fs|)
    ensures r.TooMany? ==> exists k: nat :: FirstOversized(s.fs, vs, k) && TooLarge(s.fs[k], vs[k])
    ensures r.Overrun? ==> RunsOver(s.Base(), s.fs, vs, r, m.bytes)
  {
    hide Carries, Position, EncodeU32, DecodeU32, Offset, FirstOversized, RunsOver, InBounds;
    var base, fs := s.Base(), s.fs;
    var buf := new byte[|stack|](i requires 0 <= i < |stack| => stack[i]);
    PackStart(base, fs, vs);
    OffsetMonotone(base, fs, 0, |fs|);
    Ends(base, fs, []);
    if !s.simple {
      Store(buf, HEADER, EncodeU32(s.kpds));
      DecodeEncodeU32(s.kpds);
    }
    ghost var before := buf[..];
    r := PackArgs(base, fs, vs, zerofill, buf);
    if r.TooMany? {
      return r, Message(false, []);
    } else if r.Overrun? {
      return r, Message(!s.simple, buf[..]);
    }
    PositionMonotone(base, fs, vs, 0, |fs|);
    m := Message(!s.simple, buf[..r.size]);
    CarriesFrame(buf[..], m.bytes, base, fs, vs, |fs|, r.size);
    if m.complex {
      SliceAgrees(before, m.bytes, HEADER, HEADER + BODY);
    }
  }

  /** What becomes of a request: refused by the client, refused by the server, or the procedure is
      called, with its arguments or with nothing but a code; or the client runs over. */
  datatype CallResult =
    | ArrayTooLarge
    | BadArguments
    | Called(args: seq<Value>)
    | CalledWithCode(code: u32)
    | RanOver(packing: Packing, struct: seq<byte>)

  /** The server stub on any message: with a RetCode argument an error request calls the procedure with
      the code and zeros; otherwise exactly the well-formed messages call it with what they hold. */
  method Serve(s: Shape, m: Message, retc: bool, kernel: bool) returns (r: CallResult)
    requires s.Valid() && m.Deliverable()
    ensures IsErrorRequest(s, m, retc) ==> r == CalledWithCode(RetCode(m.bytes))
    ensures !IsErrorRequest(s, m, retc) ==> !r.CalledWithCode? && (r.Called? <==> Accepts(s, m, kernel))
    ensures r.Called? ==> |r.args| == |s.fs| && (!kernel ==> forall k :: 0 <= k < |r.args| ==> !r.args[k].Runaway?)
    ensures r.Called? ==> forall k :: 0 <= k < |r.args| ==>
              Readable(s.fs[k], m.bytes, ParsedAt(s.Base(), s.fs, m.bytes, k)) &&
              r.args[k] == ValueAt(s.fs[k], m.bytes, ParsedAt(s.Base(), s.fs, m.bytes, k))
    ensures !r.ArrayTooLarge? && !r.RanOver?
  {
    hide Accepts, ValueAt, ParsedAt, Readable, DecodeU32;
    if IsErrorRequest(s, m, retc) {
      return CalledWithCode(RetCode(m.bytes));
    }
    var accepted, ptrs := CheckRequest(s, m, retc, kernel);
    if !accepted {
      return BadArguments;
    }
    var args := Extract(s, m, ptrs, kernel);
    r := Called(args);
  }

  /** No message that keeps what an overrunning client has counted is accepted, whatever is written
      behind it and whatever its size is. */
  ghost predicate NeverAccepted(s: Shape, counted: nat, struct: seq<byte>) {
    forall m: Message, kernel: bool :: m.Deliverable() && AgreeTo(struct, m.bytes, counted) ==> !Accepts(s, m, kernel)
  }

  lemma RunsOverIsRefused(s: Shape, vs: seq<Value>, r: Packing, struct: seq<byte>)
    requires s.Valid() && FitAll(s.fs, vs) && r.Overrun? && RunsOver(s.Base(), s.fs, vs, r, struct)
    ensures 0 <= r.counted <= r.next && NeverAccepted(s, r.counted, struct)
    ensures FirstOversized(s.fs, vs, r.field) && !TooLarge(s.fs[r.field], vs[r.field])
  {
    hide AgreeTo, Position, Parses, Carries, DecodeU32, TextsEnd;
    forall sent: Message, kernel: bool | sent.Deliverable() && AgreeTo(struct, sent.bytes, r.counted)
      ensures !Accepts(s, sent, kernel)
    {
      OversizedIsRefused(s.Base(), s.fs, vs, struct, sent.bytes, r.field);
    }
  }

  /** A whole request: the client packs, the server checks and extracts, each moving its own
      struct pointer.  Whatever the shape, the values and the prior contents of the client's
      buffer, the procedure is called if and only if no value is oversized, and then with the
      client's values.  If the first oversized value is an array the client refuses; if it is a string
      the client runs over, and the server refuses every message that can come of it. */
  method RequestRoundTrip(s: Shape, vs: seq<Value>, zerofill: bool, stack: seq<byte>, retc: bool, kernel: bool)
    returns (r: CallResult)
    requires s.Valid() && FitAll(s.fs, vs) && |stack| == s.Size()
    ensures r.Called? <==> forall k :: 0 <= k < |s.fs| ==> !Oversized(s.fs[k], vs[k])
    ensures r.Called? ==> |r.args| == |vs| && forall k :: 0 <= k < |vs| ==> r.args[k] == Delivered(s.fs[k], vs[k])
    ensures !r.Called? ==> exists k: nat ::
              FirstOversized(s.fs, vs, k) && if TooLarge(s.fs[k], vs[k]) then r == ArrayTooLarge else r.RanOver?
    ensures r.RanOver? ==>
              && r.packing.Overrun? && RunsOver(s.Base(), s.fs, vs, r.packing, r.struct)
              && 0 <= r.packing.counted <= r.packing.next && NeverAccepted(s, r.packing.counted, r.struct)
  {
    hide Accepts, Carries, Position, ValueAt, ParsedAt, Readable, DecodeU32, RunsOver, NeverAccepted;
    hide Oversized, TooLarge, ArgSize, Count, Payload, Grown, Fits, Delivered, Field.Head;
    var sent, m := Send(s, vs, zerofill, stack);
    match sent {
      case TooMany =>
        r := ArrayTooLarge;
      case Overrun(_, _, _, _) =>
        RunsOverIsRefused(s, vs, sent, m.bytes);
        r := RanOver(sent, m.bytes);
      case Packed(_) =>
        CarriedIsAccepted(s, vs, m);
        r := Serve(s, m, retc, kernel);
    }
  }

  /** A complex request starts with its descriptors. */
  ghost predicate Describes(s: Shape) {
    !s.simple && 1 <= s.kpds && s.fs != [] && s.fs[0] == Fixed(12 * s.kpds)
  }

  lemma DescriptorsHoldError(s: Shape)
    requires Describes(s)
    ensures ERROR_SIZE <= s.Size()
  {
    OffsetMonotone(s.Base(), s.fs, 1, |s.fs|);
    assert Offset(s.Base(), s.fs, 1) == s.Base() + s.fs[0].InStruct();
  }

  /** A request of a routine with a RetCode argument, whose request is complex: the code, if there is
      one, reaches the procedure alone; without one the arguments do. */
  method RetCodeRoundTrip(s: Shape, code: u32, vs: seq<Value>, zerofill: bool, stack: seq<byte>, ndr: seq<byte>, kernel: bool)
    returns (r: CallResult)
    requires s.Valid() && Describes(s) && FitAll(s.fs, vs) && |stack| == s.Size() && |ndr| == NDR_SIZE
    ensures r == CalledWithCode(code) <==> code != KERN_SUCCESS
    ensures code == KERN_SUCCESS ==> (r.Called? <==> forall k :: 0 <= k < |s.fs| ==> !Oversized(s.fs[k], vs[k]))
    ensures r.Called? ==> |r.args| == |vs| && forall k :: 0 <= k < |vs| ==> r.args[k] == Delivered(s.fs[k], vs[k])
  {
    hide Accepts, ValueAt, ParsedAt, Readable, DecodeU32, EncodeU32, Oversized;
    if code == KERN_SUCCESS {
      r := RequestRoundTrip(s, vs, zerofill, stack, true, kernel);
      return;
    }
    // WriteRetCodeArg
    DescriptorsHoldError(s);
    var buf := new byte[|stack|](i requires 0 <= i < |stack| => stack[i]);
    Store(buf, RETCODE, EncodeU32(code));
    ghost var before := buf[..];
    Store(buf, HEADER, ndr);
    SliceAgrees(before, buf[..], RETCODE, RETCODE + 4);
    var bytes := buf[..ERROR_SIZE];
    assert bytes[RETCODE..RETCODE + 4] == buf[RETCODE..RETCODE + 4];
    DecodeEncodeU32(code);
    r := Serve(s, Message(false, bytes), true, kernel);
  }
}
