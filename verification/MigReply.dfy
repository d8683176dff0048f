/** The reply direction: the server stub packs, the client stub checks and extracts. */
module MigReply {
  import opened Bytes
  import opened MigLayout
  import opened MigMessage
  import opened MigRequest

  /** rtCheckVariable: an Out argument behind a variable field cannot be stored directly by the
      server procedure; it is kept in a local until the pointer has moved.  `local` marks the
      arguments that use a local (or are copied from the request) for another reason. */
  predicate NeedsLocal(fs: seq<Field>, local: seq<bool>, k: nat)
    requires k < |fs| == |local|
  {
    local[k] || VarsBefore(fs, k) > 0
  }

  /** Nothing but the mark keeps an argument in a local as long as no array precedes it; behind one, every
      argument is kept. */
  lemma LocalBehindArrays(fs: seq<Field>, local: seq<bool>, k: nat)
    requires k < |fs| == |local|
    ensures NeedsLocal(fs, local, k) <==> local[k] || exists i :: 0 <= i < k && fs[i].Var?
  {
    ArraysCounted(fs, k);
  }

  lemma {:induction false} ArraysCounted(fs: seq<Field>, k: nat)
    requires k <= |fs|
    ensures VarsBefore(fs, k) > 0 <==> exists i :: 0 <= i < k && fs[i].Var?
  {
    if k > 0 {
      ArraysCounted(fs, k - 1);
    }
  }

  /** The server procedure has stored `v` straight into the declared field at `at`.  It writes a
      string with its terminator and a counted array with its count. */
  ghost predicate PlacedAt(m: seq<byte>, at: nat, f: Field, v: Value)
    requires f.WellFormed() && Fits(f, v)
  {
    var p := if f.Var? then at + f.Head() else at;
    var data := Payload(f, v);
    && at + f.Head() + f.Area() <= |m|
    && p + |data| <= |m| && m[p..p + |data|] == data
    && (f.Var? && !f.text ==> CountAt(m, f, at) == Count(f, v))
    && (v.Text? ==> |v.chars| < f.Room())
  }

  ghost predicate DirectFrom(m: seq<byte>, base: nat, fs: seq<Field>, vs: seq<Value>, local: seq<bool>, k: nat)
    requires WellFormed(fs) && FitAll(fs, vs) && |local| == |fs|
  {
    forall i {:trigger Offset(base, fs, i)} :: k <= i < |fs| && !NeedsLocal(fs, local, i) ==>
      PlacedAt(m, Offset(base, fs, i), fs[i], vs[i])
  }

  lemma PlacedFrame(m: seq<byte>, m': seq<byte>, at: nat, f: Field, v: Value)
    requires f.WellFormed() && Fits(f, v) && PlacedAt(m, at, f, v)
    requires |m| == |m'| && forall i :: at <= i < |m| ==> m[i] == m'[i]
    ensures PlacedAt(m', at, f, v)
  {
    hide DecodeU32, Payload, Field.Area;
    var p := if f.Var? then at + f.Head() else at;
    var n := |Payload(f, v)|;
    assert m[p..p + n] == m'[p..p + n];
    if f.Var? {
      assert m[p - 4..p] == m'[p - 4..p];
    }
  }

  /** Packing field `k` leaves alone what the procedure stored behind it. */
  lemma DirectFrame(m: seq<byte>, m': seq<byte>, base: nat, fs: seq<Field>, vs: seq<Value>, local: seq<bool>, k: nat)
    requires WellFormed(fs) && FitAll(fs, vs) && |local| == |fs| && k < |fs|
    requires DirectFrom(m, base, fs, vs, local, k) && |m| == |m'|
    requires VarsBefore(fs, k + 1) == 0 ==> forall i :: Offset(base, fs, k + 1) <= i < |m| ==> m[i] == m'[i]
    ensures DirectFrom(m', base, fs, vs, local, k + 1)
  {
    hide PlacedAt, Offset, VarsBefore;
    forall i {:trigger Offset(base, fs, i)} | k + 1 <= i < |fs| && !NeedsLocal(fs, local, i)
      ensures PlacedAt(m', Offset(base, fs, i), fs[i], vs[i])
    {
      VarsMonotone(fs, k + 1, i);
      OffsetMonotone(base, fs, k + 1, i);
      PlacedFrame(m, m', Offset(base, fs, i), fs[i], vs[i]);
    }
  }

  lemma PlacedCarries(m: seq<byte>, at: nat, f: Field, v: Value)
    requires f.WellFormed() && Fits(f, v) && PlacedAt(m, at, f, v)
    requires f.Var? && f.text ==> CountAt(m, f, at) == Count(f, v)
    ensures CarriesAt(m, at, f, v)
  {
    hide CountAt;
  }

  /** WritePackArgValueVariable: the count of a string the procedure stored directly is taken from
      the string itself. */
  method CountText(buf: array<byte>, at: nat, f: Field, v: Value)
    requires f.WellFormed() && Fits(f, v) && f.Var? && f.text && f.Area() < WORD
    requires PlacedAt(buf[..], at, f, v)
    modifies buf
    ensures forall i :: 0 <= i < at || at + 8 <= i < buf.Length ==> buf[i] == old(buf[i])
    ensures CarriesAt(buf[..], at, f, v)
  {
    hide DecodeU32, EncodeU32, CarriesAt, Align4, Scaled, Payload, CString;
    PlacedLength(buf[..], at, f, v);
    var strLength := |CString(buf[..][at + 8..])| + 1;
    StoredFits(f, v, false);
    ghost var before := buf[..];
    Store(buf, at + 4, EncodeU32(strLength));
    DecodeEncodeU32(strLength);
    ghost var n := |Payload(f, v)|;
    assert buf[at + 8..at + 8 + n] == before[at + 8..at + 8 + n];
    PlacedCarries(buf[..], at, f, v);
  }

  lemma PlacedLength(m: seq<byte>, at: nat, f: Field, v: Value)
    requires f.WellFormed() && Fits(f, v) && f.Var? && f.text && PlacedAt(m, at, f, v)
    ensures |CString(m[at + 8..])| + 1 == Count(f, v)
  {
    hide CountAt, Align4, Scaled;
    var s := v.chars + [0];
    assert m[at + 8..][..|v.chars|] == m[at + 8..at + 8 + |s|][..|v.chars|] == v.chars;
    assert m[at + 8..][|v.chars|] == m[at + 8..at + 8 + |s|][|v.chars|] == 0;
    CStringOf(v.chars, m[at + 8..]);
  }

  /** WriteReplyArgs followed by WriteReplyInit.  Out arguments in front of and including the first
      array may already be in place; everything else is packed as the pointer moves.  The size
      goes to Head.msgh_size by a different statement depending on how many arrays there are
      and whether anything follows the last one; all of them give the same size.  A string that is
      oversized makes the server run over like the client. */
  method PackReply(base: nat, fs: seq<Field>, vs: seq<Value>, local: seq<bool>, zerofill: bool, buf: array<byte>)
    returns (r: Packing, outP: int)
    requires WellFormed(fs) && NoneTooLarge(fs, vs) && |local| == |fs| && buf.Length == SizeOf(base, fs) < WORD
    requires DirectFrom(buf[..], base, fs, vs, local, 0)
    modifies buf
    ensures !r.TooMany? && (r.Packed? <==> InBounds(fs, vs))
    ensures r.Packed? ==> r.size == Position(base, fs, vs, |fs|) <= buf.Length
    ensures r.Packed? ==> Carries(buf[..], base, fs, vs, |fs|) && outP == 0
    ensures r.Overrun? ==> RunsOver(base, fs, vs, r, buf[..])
  {
    hide Position, Shift, GrownBefore, VarsBefore, Offset, Field.Head, Field.Area, Carries;
    hide HeadsFrom, CarriesAt, PlacedAt, DirectFrom, Enlarged;
    hide Oversized, TooLarge, FirstOversized, RunsOver, ArgSize, Count, Payload, Grown, Fits, Add32;
    var pos, numVar, maxPos := CheckVariable(fs);
    var sizeDelta := SizeDelta(0, base, fs);
    var min := SizeOf(base, fs) - sizeDelta;
    var headSize: u32, size: u32, lastVar := 0, 0, -1;
    outP := 0;
    PackStart(base, fs, vs);
    CarriesNothing(buf[..], base, fs, vs);
    for k := 0 to |fs|
      invariant forall i :: 0 <= i < k ==> !Oversized(fs[i], vs[i])
      invariant lastVar == -1 || (lastVar == k - 1 && fs[k - 1].Var?)
      invariant lastVar == -1 && k > 0 ==> !fs[k - 1].Var?
      invariant outP == Shift(fs, vs, if lastVar == -1 then k else lastVar)
      invariant var done := if lastVar == -1 then k else lastVar;
                VarsBefore(fs, done) > 0 ==>
                  (if numVar == 1 then headSize else size) == min + GrownBefore(fs, vs, done)
      invariant Carries(buf[..], base, fs, vs, k)
      invariant DirectFrom(buf[..], base, fs, vs, local, k)
    {
      if lastVar != -1 {
        PackStep(base, fs, vs, lastVar);
        if pos[lastVar] < pos[k] {
          headSize, size, outP := AdjustReply(base, fs, vs, lastVar, numVar, min, headSize, size, outP);
          lastVar := -1;
        }
      }
      ReplyField(base, fs, vs, local, zerofill, buf, k, outP);
      PackStep(base, fs, vs, k);
      if Oversized(fs[k], vs[k]) {
        NotTooLarge(fs[k], vs[k]);
        var counted := outP + Offset(base, fs, k) + fs[k].Head();
        headSize, size, outP := AdjustReply(base, fs, vs, k, numVar, min, headSize, size, outP);
        r := Overrun(k, counted, if numVar == 1 then headSize else size, outP + Offset(base, fs, k + 1));
        IsFirstOversized(fs, vs, k);
        HasRunOver(base, fs, vs, r, buf[..]);
        return;
      }
      if fs[k].Var? {
        lastVar := k;
      }
    }
    PackRoom(base, fs, vs, |fs|);
    ShiftedOffset(base, fs, vs, |fs|);
    HeadsEnd(fs);
    if lastVar != -1 {
      headSize, size := FinishReply(base, fs, vs, lastVar, numVar, min, headSize, size, outP);
    }
    // WriteReplyInit
    if numVar > 1 || maxPos > 0 {
      outP := 0;
    } else {
      NothingMoved(fs, vs, if lastVar == -1 then |fs| else lastVar);
    }
    if numVar == 0 {
      headSize := min;
      FirstArray(fs, vs, |fs|);
    } else if numVar > 1 {
      headSize := size;
    }
    r := Packed(headSize);
  }

  /** One iteration of WriteReplyArgs, at the field's shifted address. */
  method ReplyField(base: nat, fs: seq<Field>, vs: seq<Value>, local: seq<bool>, zerofill: bool,
                    buf: array<byte>, k: nat, outP: int)
    requires WellFormed(fs) && FitAll(fs, vs) && |local| == |fs| && buf.Length == SizeOf(base, fs) < WORD
    requires k < |fs| && outP == Shift(fs, vs, k)
    requires (forall i :: 0 <= i < k ==> !Oversized(fs[i], vs[i])) && !TooLarge(fs[k], vs[k])
    requires Carries(buf[..], base, fs, vs, k) && DirectFrom(buf[..], base, fs, vs, local, k)
    modifies buf
    ensures Carries(buf[..], base, fs, vs, k + 1) && DirectFrom(buf[..], base, fs, vs, local, k + 1)
  {
    hide Position, Shift, VarsBefore, Offset, Field.Head, Field.Area, Carries, CarriesAt, PlacedAt, DirectFrom;
    AreaBounded(base, fs, k, |fs|);
    PackRoom(base, fs, vs, k);
    var at := outP + Offset(base, fs, k);
    ghost var before := buf[..];
    if !NeedsLocal(fs, local, k) {
      DirectHere(before, base, fs, vs, local, k);
    }
    if NeedsLocal(fs, local, k) {
      PackField(buf, at, fs[k], vs[k], zerofill);
    } else if fs[k].Var? && fs[k].text {
      TextHead(fs[k]);
      CountText(buf, at, fs[k], vs[k]);
    } else {
      PlacedCarries(buf[..], at, fs[k], vs[k]);
    }
    CarriesOneMore(before, buf[..], base, fs, vs, k);
    OneStep(base, fs, [], k);
    if VarsBefore(fs, k + 1) == 0 {
      NothingGrows(base, fs, vs, k);
    }
    DirectFrame(before, buf[..], base, fs, vs, local, k);
  }

  lemma DirectHere(m: seq<byte>, base: nat, fs: seq<Field>, vs: seq<Value>, local: seq<bool>, k: nat)
    requires WellFormed(fs) && FitAll(fs, vs) && |local| == |fs| && k < |fs|
    requires DirectFrom(m, base, fs, vs, local, k) && !NeedsLocal(fs, local, k)
    ensures Position(base, fs, vs, k) == Offset(base, fs, k)
    ensures PlacedAt(m, Offset(base, fs, k), fs[k], vs[k])
  {
    NothingGrows(base, fs, vs, k);
  }

  /** WriteAdjustMsgSize of the server: a single array is written to the header at once. */
  method AdjustReply(base: nat, fs: seq<Field>, vs: seq<Value>, k: nat, numVar: nat, min: nat,
                     headSize: u32, size: u32, outP: int)
    returns (newHead: u32, newSize: u32, newPtr: int)
    requires WellFormed(fs) && FitAll(fs, vs) && k < |fs| && fs[k].Var? && SizeOf(base, fs) < WORD
    requires (forall i :: 0 <= i < k ==> !Oversized(fs[i], vs[i])) && !TooLarge(fs[k], vs[k])
    requires min == MinSize(base, fs) && outP == Shift(fs, vs, k) && numVar == VarsBefore(fs, |fs|)
    requires VarsBefore(fs, k) > 0 ==> (if numVar == 1 then headSize else size) == min + GrownBefore(fs, vs, k)
    ensures Count(fs[k], vs[k]) < WORD
    ensures var written := if numVar == 1 then newHead else newSize;
            && written == Add32(min + GrownBefore(fs, vs, k), ArgSize(fs[k].elem, Count(fs[k], vs[k])))
            && (!Oversized(fs[k], vs[k]) ==> written == min + GrownBefore(fs, vs, k + 1))
    ensures newPtr == Shift(fs, vs, k) + ArgSize(fs[k].elem, Count(fs[k], vs[k])) - fs[k].Area()
    ensures !Oversized(fs[k], vs[k]) ==> newPtr == Shift(fs, vs, k + 1)
  {
    hide Position, Shift, GrownBefore, VarsBefore, Oversized, TooLarge, ArgSize, Count, Add32;
    newHead, newSize := headSize, size;
    if numVar == 1 {
      PackStep(base, fs, vs, k);
      VarsMonotone(fs, k + 1, |fs|);
      newHead, newPtr := AdjustMsgSize(base, fs, vs, k, min, headSize, outP);
    } else {
      newSize, newPtr := AdjustMsgSize(base, fs, vs, k, min, size, outP);
    }
  }

  /** WriteFinishMsgSize of the server: the only array goes to the header, a later one to
      msgh_size. */
  method FinishReply(base: nat, fs: seq<Field>, vs: seq<Value>, k: nat, numVar: nat, min: nat,
                     headSize: u32, size: u32, outP: int)
    returns (newHead: u32, newSize: u32)
    requires WellFormed(fs) && InBounds(fs, vs) && k < |fs| && fs[k].Var? && SizeOf(base, fs) < WORD
    requires min == MinSize(base, fs) && outP == Shift(fs, vs, k)
    requires numVar == VarsBefore(fs, |fs|) && k == |fs| - 1
    requires VarsBefore(fs, k) > 0 ==> (if numVar == 1 then headSize else size) == min + GrownBefore(fs, vs, k)
    ensures (if numVar == 1 then newHead else newSize) == min + GrownBefore(fs, vs, k + 1)
  {
    hide Position, Shift, GrownBefore, Oversized, TooLarge;
    NotTooLarge(fs[k], vs[k]);
    newHead, newSize := headSize, size;
    var ptr: int;
    if VarsBefore(fs, k) == 0 {
      newHead, ptr := AdjustMsgSize(base, fs, vs, k, min, headSize, outP);
    } else {
      newSize, ptr := AdjustMsgSize(base, fs, vs, k, min, size, outP);
    }
  }

  /** With at most one array and nothing behind it, the pointer has not moved. */
  lemma NothingMoved(fs: seq<Field>, vs: seq<Value>, k: nat)
    requires WellFormed(fs) && FitAll(fs, vs) && |fs| - 1 <= k <= |fs|
    requires fs != [] ==> VarsBefore(fs, |fs| - 1) == 0
    requires fs != [] && k == |fs| ==> !fs[k - 1].Var?
    ensures Shift(fs, vs, k) == 0
  {
    UnshiftedBeforeArrays(fs, vs, k);
  }

  lemma {:induction false} UnshiftedBeforeArrays(fs: seq<Field>, vs: seq<Value>, k: nat)
    requires WellFormed(fs) && FitAll(fs, vs) && k <= |fs| && VarsBefore(fs, k) == 0
    ensures Shift(fs, vs, k) == 0
  {
    if k != 0 {
      UnshiftedBeforeArrays(fs, vs, k - 1);
    }
  }
}
