/** A two-way routine: reply headers, return codes and the whole reply. */
module MigCall {
  import opened Bytes
  import opened MigLayout
  import opened MigMessage
  import opened MigRequest
  import opened MigReply

  const MACH_PORT_NULL := 0
  const MACH_NOTIFY_SEND_ONCE := 71

  /** A two-way routine as far as its reply goes.  A complex reply starts with its descriptors and
      carries no RetCode; a simple one starts with the NDR record and RetCode. */
  datatype Routine = Routine(id: int, simple: bool, kpds: u32, outs: seq<Field>) {
    function Fields(): seq<Field> {
      if simple then [Fixed(NDR_SIZE), Fixed(4)] + outs else outs
    }

    function Reply(): Shape {
      Shape(simple, kpds, Fields())
    }

    /** rtNoReplyArgs: nothing but the return code. */
    predicate NoReplyArgs() {
      simple && outs == []
    }

    ghost predicate Valid() {
      && Reply().Valid()
      && (!simple ==> 1 <= kpds && outs != [] && outs[0] == Fixed(12 * kpds))
    }
  }

  datatype Header = Header(id: int, remotePort: int, localPort: int)

  datatype Reply = Reply(head: Header, msg: Message)

  /** Delivery exchanges the two ports of the header. */
  function Transport(r: Reply): Reply {
    r.(head := Header(r.head.id, r.head.localPort, r.head.remotePort))
  }

  lemma ReplyHoldsError(rt: Routine)
    requires rt.Valid()
    ensures rt.Reply().Size() >= ERROR_SIZE
    ensures rt.NoReplyArgs() ==> rt.Reply().Size() == ERROR_SIZE && VarsBefore(rt.Fields(), |rt.Fields()|) == 0
    ensures rt.simple ==> MinSize(rt.Reply().Base(), rt.Fields()) >= ERROR_SIZE
  {
    var base, fs := rt.Reply().Base(), rt.Fields();
    if rt.simple {
      assert fs[0] == Fixed(8) && fs[1] == Fixed(4);
      OffsetMonotone(base, fs, 2, |fs|);
      assert Offset(base, fs, 2) == Offset(base, fs, 1) + 4 == ERROR_SIZE;
      assert HeadsFrom(fs, 0) == 8 + HeadsFrom(fs, 1) == 12 + HeadsFrom(fs, 2);
      assert VarsBefore(fs, 2) == VarsBefore(fs, 1) == VarsBefore(fs, 0);
    } else {
      OffsetMonotone(base, fs, 1, |fs|);
      assert Offset(base, fs, 1) == base + fs[0].InStruct();
      assert fs[0].InStruct() >= 12;
    }
  }

  // ----- the client's check -----

  datatype ReplyCheck =
    | ServerDied
    | Mismatch
    | TypeError
    | Return(code: u32)
    | Accepted(ptrs: seq<int>)

  /** A reply that a failing server procedure produces. */
  ghost predicate IsErrorReply(rt: Routine, r: Reply, code: u32) {
    && r.head.id == rt.id + 100 && r.head.remotePort == MACH_PORT_NULL
    && !r.msg.complex && |r.msg.bytes| == ERROR_SIZE && RetCode(r.msg.bytes) == code
  }

  /** A reply whose Out values may be extracted. */
  ghost predicate IsDataReply(rt: Routine, r: Reply)
    requires r.msg.Deliverable()
  {
    && r.head.id == rt.id + 100 && r.head.remotePort == MACH_PORT_NULL
    && r.msg.complex == !rt.simple
    && (r.msg.complex ==> DecodeU32(r.msg.bytes[HEADER..HEADER + BODY]) == rt.kpds)
    && (rt.simple ==> ERROR_SIZE <= |r.msg.bytes| && RetCode(r.msg.bytes) == KERN_SUCCESS)
    && Parses(rt.Fields(), 0, rt.Reply().Base(), r.msg.bytes)
  }

  /** A message with the complex bit, the descriptor count and a size of a data reply. */
  ghost predicate IsTyped(rt: Routine, m: Message)
    requires m.Deliverable()
  {
    && m.complex == !rt.simple
    && (if VarsBefore(rt.Fields(), |rt.Fields()|) > 0
        then MinSize(rt.Reply().Base(), rt.Fields()) <= |m.bytes| <= rt.Reply().Size()
        else |m.bytes| == rt.Reply().Size())
    && (m.complex ==> DecodeU32(m.bytes[HEADER..HEADER + BODY]) == rt.kpds)
  }

  /** A message with the form of an error reply and a code other than KERN_SUCCESS. */
  ghost predicate IsFailure(m: Message) {
    !m.complex && |m.bytes| == ERROR_SIZE && RetCode(m.bytes) != KERN_SUCCESS
  }

  /** A reply from which a routine with Out arguments returns the code alone. */
  ghost predicate FailsWithCode(rt: Routine, m: Message)
    requires m.Deliverable()
  {
    && (IsTyped(rt, m) || IsFailure(m))
    && !m.complex && ERROR_SIZE <= |m.bytes| && RetCode(m.bytes) != KERN_SUCCESS
  }

  /** WriteCheckIdentity: whether the type check behind the message id lets the reply pass. */
  method IdentityOk(rt: Routine, r: Reply) returns (ok: bool)
    requires rt.Valid() && r.msg.Deliverable()
    ensures ok <==> IsTyped(rt, r.msg) || IsFailure(r.msg)
  {
    hide DecodeU32, Offset, HeadsFrom;
    var s, bytes, complex := rt.Reply(), r.msg.bytes, r.msg.complex;
    var pos, numVar, maxPos := CheckVariable(s.fs);
    var delta := SizeDelta(HEADER, s.Base(), s.fs);
    var min := s.Size() - delta;
    ReplyHoldsError(rt);
    var wrongSize := if numVar > 0 then |bytes| > s.Size() || |bytes| < min else |bytes| != s.Size();
    if rt.simple {
      if rt.NoReplyArgs() {
        ok := !(complex || |bytes| != s.Size());
        assert numVar == 0 by { assert s.fs == [Fixed(8), Fixed(4)]; }
      } else {
        ok := !(complex || (wrongSize && (|bytes| != ERROR_SIZE || RetCode(bytes) == KERN_SUCCESS)));
      }
    } else {
      ok := !((!complex || DecodeU32(bytes[HEADER..HEADER + BODY]) != rt.kpds || wrongSize) &&
              (complex || |bytes| != ERROR_SIZE || RetCode(bytes) == KERN_SUCCESS));
    }
  }

  /** WriteCheckReply: identity, ports, return code, then the sizes of the arrays.  Out values are
      extracted exactly from data replies; an error reply yields its code, for every routine. */
  method CheckReply(rt: Routine, r: Reply) returns (result: ReplyCheck)
    requires rt.Valid() && r.msg.Deliverable()
    ensures result.Accepted? <==> !rt.NoReplyArgs() && IsDataReply(rt, r)
    ensures result.Accepted? ==>
              forall k :: 0 <= k < |rt.Fields()| ==>
                PointsAt(rt.Reply().Base(), rt.Fields(), r.msg.bytes, result.ptrs, k)
    ensures r.head.id != rt.id + 100 ==>
              result == if r.head.id == 71 then ServerDied else Mismatch
    ensures r.head.id == rt.id + 100 ==> !result.ServerDied? && !result.Mismatch?
    ensures result.Return? ==>
              r.head.remotePort == MACH_PORT_NULL && ERROR_SIZE <= |r.msg.bytes| && result.code == RetCode(r.msg.bytes)
    ensures result.Return? && !rt.NoReplyArgs() ==> result.code != KERN_SUCCESS
    ensures result.Return? <==>
            && r.head.id == rt.id + 100 && r.head.remotePort == MACH_PORT_NULL
            && if rt.NoReplyArgs() then IsTyped(rt, r.msg) else FailsWithCode(rt, r.msg)
    ensures result.TypeError? <==>
            && r.head.id == rt.id + 100
            && (|| r.head.remotePort != MACH_PORT_NULL
                || !(IsTyped(rt, r.msg) || (IsFailure(r.msg) && !rt.NoReplyArgs()))
                || (&& !rt.NoReplyArgs() && !FailsWithCode(rt, r.msg)
                    && !Parses(rt.Fields(), 0, rt.Reply().Base(), r.msg.bytes)))
    ensures forall code :: code != KERN_SUCCESS && IsErrorReply(rt, r, code) ==> result == Return(code)
    ensures forall code :: rt.NoReplyArgs() && IsErrorReply(rt, r, code) ==> result == Return(code)
  {
    hide DecodeU32, Offset, HeadsFrom, Parses, VarsBefore, AreasFrom, PointsAt;
    var base, fs, bytes := rt.Reply().Base(), rt.Fields(), r.msg.bytes;
    if r.head.id != rt.id + 100 {
      return if r.head.id == MACH_NOTIFY_SEND_ONCE then ServerDied else Mismatch;
    }
    var typed := IdentityOk(rt, r);
    ReplyHoldsError(rt);
    if Parses(fs, 0, base, bytes) {
      ParsedSizeInRange(base, fs, bytes);
    }
    if !typed {
      return TypeError;
    }
    if r.head.remotePort != MACH_PORT_NULL {
      return TypeError;
    }
    if rt.NoReplyArgs() {
      return Return(RetCode(bytes));
    }
    if if rt.simple then RetCode(bytes) != KERN_SUCCESS else !r.msg.complex {
      return Return(RetCode(bytes));
    }
    var ok, ptrs := CheckSizes(base, fs, bytes);
    result := if ok then Accepted(ptrs) else TypeError;
  }

  lemma ParsedSizeInRange(base: nat, fs: seq<Field>, msg: seq<byte>)
    requires WellFormed(fs) && Parses(fs, 0, base, msg)
    ensures MinSize(base, fs) <= |msg| <= SizeOf(base, fs)
    ensures VarsBefore(fs, |fs|) == 0 ==> |msg| == SizeOf(base, fs)
  {
    hide Parses, Offset;
    ParsesNeedsHeads(fs, 0, base, msg);
    StructIsMinPlusAreas(base, fs, |fs|);
    if VarsBefore(fs, |fs|) == 0 {
      NoAreasLeft(fs, 0);
    }
  }

  // ----- the server's reply -----

  /** The Out values as they stand in the struct; a data reply has a RetCode of KERN_SUCCESS. */
  function ReplyValues(rt: Routine, ndr: seq<byte>, outs: seq<Value>): seq<Value> {
    if rt.simple then [Block(ndr), Block(EncodeU32(KERN_SUCCESS))] + outs else outs
  }

  /** What the server stub starts from: `mem` is the reply buffer after the server procedure has
      returned, with the Out values it stores directly already in place.  The procedure keeps counted
      arrays within their maximum, which the stub takes on trust. */
  ghost predicate ProcedureReturned(rt: Routine, ndr: seq<byte>, outs: seq<Value>, local: seq<bool>, mem: seq<byte>)
    requires rt.Valid()
  {
    var fs, vs := rt.Fields(), ReplyValues(rt, ndr, outs);
    && |ndr| == NDR_SIZE && |mem| == rt.Reply().Size() && |local| == |fs|
    && (rt.simple ==> local[0] && !local[1])
    && NoneTooLarge(fs, vs)
    && DirectFrom(mem, rt.Reply().Base(), fs, vs, local, if rt.simple then 2 else 0)
  }

  /** The server stub from the return of the procedure on: the header set up by the demultiplexer,
      RetCode, and on success the Out values.  If the stub runs over, the reply is the struct at the
      moment when the string has been counted. */
  method MakeReply(rt: Routine, replyPort: int, code: u32, ndr: seq<byte>, outs: seq<Value>,
                   local: seq<bool>, zerofill: bool, mem: seq<byte>) returns (r: Reply, packing: Packing)
    requires rt.Valid() && |ndr| == NDR_SIZE && |mem| == rt.Reply().Size()
    requires code == KERN_SUCCESS && !rt.NoReplyArgs() ==> ProcedureReturned(rt, ndr, outs, local, mem)
    ensures r.head == Header(rt.id + 100, replyPort, MACH_PORT_NULL) && r.msg.Deliverable()
    ensures code != KERN_SUCCESS || rt.NoReplyArgs() ==> IsErrorReply(rt, Transport(r), code)
    ensures code == KERN_SUCCESS && !rt.NoReplyArgs() ==>
              var s, vs := rt.Reply(), ReplyValues(rt, ndr, outs);
              && !packing.TooMany? && (packing.Packed? <==> InBounds(s.fs, vs))
              && (packing.Packed? ==> HoldsData(rt, vs, r.msg))
              && (packing.Overrun? ==> RunsOver(s.Base(), s.fs, vs, packing, r.msg.bytes))
  {
    hide Offset, Position, Carries, DirectFrom, EncodeU32, DecodeU32, InBounds, RunsOver;
    ReplyHoldsError(rt);
    DecodeEncodeU32(code);
    var head := Header(rt.id + 100, replyPort, MACH_PORT_NULL);
    var buf := new byte[|mem|](i requires 0 <= i < |mem| => mem[i]);
    if rt.simple {
      Store(buf, RETCODE, EncodeU32(code));
    }
    if code != KERN_SUCCESS || rt.NoReplyArgs() {
      // MIG_RETURN_ERROR, or the empty reply with its NDR record
      Store(buf, RETCODE, EncodeU32(code));
      Store(buf, HEADER, ndr);
      var bytes := buf[..ERROR_SIZE];
      assert bytes[RETCODE..RETCODE + 4] == EncodeU32(code);
      return Reply(head, Message(false, bytes)), Packed(ERROR_SIZE);
    }
    var fs, vs, base := rt.Fields(), ReplyValues(rt, ndr, outs), rt.Reply().Base();
    RetCodePlaced(rt, ndr, outs, local, mem, buf[..]);
    var outP;
    packing, outP := PackReply(base, fs, vs, local, zerofill, buf);
    if packing.Overrun? {
      return Reply(head, Message(false, buf[..])), packing;
    }
    PackStart(base, fs, vs);
    PositionMonotone(base, fs, vs, 0, |fs|);
    if !rt.simple {
      ghost var packed := buf[..];
      Store(buf, outP + HEADER, EncodeU32(rt.kpds));
      DecodeEncodeU32(rt.kpds);
      CarriesBehindHeader(packed, buf[..], base, fs, vs);
    }
    r := Reply(head, Message(!rt.simple, buf[..packing.size]));
    CarriesFrame(buf[..], r.msg.bytes, base, fs, vs, |fs|, packing.size);
    if !rt.simple {
      SliceOfPrefix(buf[..], r.msg.bytes, packing.size, HEADER, HEADER + BODY);
    }
  }

  /** The message of a data reply: the descriptor count, and every field at its tight position. */
  ghost predicate HoldsData(rt: Routine, vs: seq<Value>, m: Message)
    requires rt.Reply().Valid() && FitAll(rt.Fields(), vs)
  {
    var s := rt.Reply();
    && m.Deliverable() && m.complex == !rt.simple && |m.bytes| == Position(s.Base(), s.fs, vs, |s.fs|)
    && (m.complex ==> DecodeU32(m.bytes[HEADER..HEADER + BODY]) == rt.kpds)
    && Carries(m.bytes, s.Base(), s.fs, vs, |s.fs|)
  }

  lemma RetCodePlaced(rt: Routine, ndr: seq<byte>, outs: seq<Value>, local: seq<bool>, mem: seq<byte>, m: seq<byte>)
    requires rt.Valid() && ProcedureReturned(rt, ndr, outs, local, mem) && |m| == |mem| >= ERROR_SIZE
    requires rt.simple ==> m[RETCODE..RETCODE + 4] == EncodeU32(KERN_SUCCESS)
    requires forall i :: 0 <= i < |m| && !(rt.simple && RETCODE <= i < RETCODE + 4) ==> m[i] == mem[i]
    ensures DirectFrom(m, rt.Reply().Base(), rt.Fields(), ReplyValues(rt, ndr, outs), local, 0)
  {
    hide EncodeU32, PlacedAt;
    var fs, vs, base := rt.Fields(), ReplyValues(rt, ndr, outs), rt.Reply().Base();
    if rt.simple {
      assert Offset(base, fs, 1) == RETCODE && Offset(base, fs, 2) == ERROR_SIZE;
      forall i {:trigger Offset(base, fs, i)} | 0 <= i < |fs| && !NeedsLocal(fs, local, i)
        ensures PlacedAt(m, Offset(base, fs, i), fs[i], vs[i])
      {
        if i == 1 {
          BlockPlaced(m, RETCODE, EncodeU32(KERN_SUCCESS));
        } else {
          OffsetMonotone(base, fs, 2, i);
          PlacedFrame(mem, m, Offset(base, fs, i), fs[i], vs[i]);
        }
      }
    } else {
      assert m == mem;
    }
  }

  lemma BlockPlaced(m: seq<byte>, at: nat, data: seq<byte>)
    requires |data| == 4 && at + 4 <= |m| && m[at..at + 4] == data
    ensures PlacedAt(m, at, Fixed(4), Block(data))
  {
  }

  lemma CarriesBehindHeader(m: seq<byte>, m': seq<byte>, base: nat, fs: seq<Field>, vs: seq<Value>)
    requires WellFormed(fs) && FitAll(fs, vs) && Carries(m, base, fs, vs, |fs|) && |m| == |m'|
    requires forall i :: base <= i < |m| ==> m[i] == m'[i]
    ensures Carries(m', base, fs, vs, |fs|)
  {
    hide CarriesAt, Position;
    forall k {:trigger Position(base, fs, vs, k)} | 0 <= k < |fs|
      ensures CarriesAt(m', Position(base, fs, vs, k), fs[k], vs[k])
    {
      PackStart(base, fs, vs);
      PositionMonotone(base, fs, vs, 0, k);
      CarriesSuffix(m, m', Position(base, fs, vs, k), fs[k], vs[k]);
    }
  }

  lemma CarriesSuffix(m: seq<byte>, m': seq<byte>, p: nat, f: Field, v: Value)
    requires f.WellFormed() && Fits(f, v) && CarriesAt(m, p, f, v)
    requires |m| == |m'| && forall i :: p <= i < |m| ==> m[i] == m'[i]
    ensures CarriesAt(m', p, f, v)
  {
    hide DecodeU32, Payload;
    var at := if f.Var? then p + f.Head() else p;
    var n := |Payload(f, v)|;
    assert m[at..at + n] == m'[at..at + n];
    if f.Var? {
      assert m[at - 4..at] == m'[at - 4..at];
    }
  }

  datatype ClientResult =
    | Failed(check: ReplyCheck)
    | Returned(code: u32)
    | Received(values: seq<Value>)
    | RanOver(packing: Packing, struct: seq<byte>)

  /** From no reply that keeps what an overrunning server has counted are Out values extracted. */
  ghost predicate NeverData(rt: Routine, counted: nat, struct: seq<byte>) {
    forall r: Reply :: r.msg.Deliverable() && AgreeTo(struct, r.msg.bytes, counted) ==> !IsDataReply(rt, r)
  }

  lemma RunsOverIsNoData(rt: Routine, vs: seq<Value>, p: Packing, struct: seq<byte>)
    requires rt.Valid() && FitAll(rt.Fields(), vs) && p.Overrun?
    requires RunsOver(rt.Reply().Base(), rt.Fields(), vs, p, struct)
    ensures 0 <= p.counted <= p.next && NeverData(rt, p.counted, struct)
    ensures FirstOversized(rt.Fields(), vs, p.field)
  {
    hide AgreeTo, Position, Parses, Carries, DecodeU32;
    forall r: Reply | r.msg.Deliverable() && AgreeTo(struct, r.msg.bytes, p.counted)
      ensures !IsDataReply(rt, r)
    {
      OversizedIsRefused(rt.Reply().Base(), rt.Fields(), vs, struct, r.msg.bytes, p.field);
    }
  }

  /** A whole reply, from the return of the server procedure to the client's results.  A failing
      procedure's code reaches the client unchanged, whatever the routine; after success the
      client extracts the values the procedure produced if and only if none is oversized, and
      otherwise nothing that the server may send is extracted. */
  method ReplyRoundTrip(rt: Routine, replyPort: int, code: u32, ndr: seq<byte>, outs: seq<Value>,
                        local: seq<bool>, zerofill: bool, mem: seq<byte>) returns (c: ClientResult)
    requires rt.Valid() && |ndr| == NDR_SIZE && |mem| == rt.Reply().Size()
    requires code == KERN_SUCCESS && !rt.NoReplyArgs() ==> ProcedureReturned(rt, ndr, outs, local, mem)
    ensures code != KERN_SUCCESS || rt.NoReplyArgs() ==> c == Returned(code)
    ensures code == KERN_SUCCESS && !rt.NoReplyArgs() ==>
              var fs, vs := rt.Fields(), ReplyValues(rt, ndr, outs);
              && FitAll(fs, vs) && (c.Received? || c.RanOver?)
              && (c.Received? <==> forall k :: 0 <= k < |fs| ==> !Oversized(fs[k], vs[k]))
              && (c.Received? ==> |c.values| == |fs| && forall k :: 0 <= k < |fs| ==> c.values[k] == Delivered(fs[k], vs[k]))
              && (c.RanOver? ==> c.packing.Overrun? && RunsOver(rt.Reply().Base(), fs, vs, c.packing, c.struct))
              && (c.RanOver? ==> 0 <= c.packing.counted <= c.packing.next && NeverData(rt, c.packing.counted, c.struct))
  {
    hide Accepts, Carries, Position, ValueAt, ParsedAt, Readable, DecodeU32, EncodeU32, PointsAt;
    hide Offset, IsErrorReply, DirectFrom, Oversized, TooLarge, RunsOver, HoldsData, NeverData, Delivered, IsDataReply;
    var sent, packing := MakeReply(rt, replyPort, code, ndr, outs, local, zerofill, mem);
    var r := Transport(sent);
    if code == KERN_SUCCESS && !rt.NoReplyArgs() {
      if packing.Overrun? {
        RunsOverIsNoData(rt, ReplyValues(rt, ndr, outs), packing, r.msg.bytes);
        return ClientResult.RanOver(packing, r.msg.bytes);
      }
      DataReply(rt, ndr, outs, r);
    }
    var result := CheckReply(rt, r);
    match result
    case Return(got) => c := Returned(got);
    case Accepted(ptrs) =>
      if code != KERN_SUCCESS || rt.NoReplyArgs() {
        assert false;
      }
      var values := Extract(rt.Reply(), r.msg, ptrs, false);
      c := Received(values);
    case _ => c := Failed(result);
  }

  lemma DataReply(rt: Routine, ndr: seq<byte>, outs: seq<Value>, r: Reply)
    requires rt.Valid() && r.msg.Deliverable() && |ndr| == NDR_SIZE
    requires InBounds(rt.Fields(), ReplyValues(rt, ndr, outs)) && HoldsData(rt, ReplyValues(rt, ndr, outs), r.msg)
    requires r.head.id == rt.id + 100 && r.head.remotePort == MACH_PORT_NULL
    ensures IsDataReply(rt, r) && Accepts(rt.Reply(), r.msg, false)
    ensures var s, vs := rt.Reply(), ReplyValues(rt, ndr, outs);
            forall k :: 0 <= k < |s.fs| ==>
              Readable(s.fs[k], r.msg.bytes, ParsedAt(s.Base(), s.fs, r.msg.bytes, k)) &&
              ValueAt(s.fs[k], r.msg.bytes, ParsedAt(s.Base(), s.fs, r.msg.bytes, k)) == Delivered(s.fs[k], vs[k])
  {
    hide Carries, ValueAt, ParsedAt, Readable, DecodeU32, EncodeU32;
    var s, vs := rt.Reply(), ReplyValues(rt, ndr, outs);
    CarriedIsAccepted(s, vs, r.msg);
    if rt.simple {
      RetCodeCarried(s.fs, vs, r.msg.bytes);
    }
  }

  lemma RetCodeCarried(fs: seq<Field>, vs: seq<Value>, bytes: seq<byte>)
    requires WellFormed(fs) && FitAll(fs, vs) && Carries(bytes, HEADER, fs, vs, |fs|)
    requires |fs| >= 2 && fs[0] == Fixed(8) && fs[1] == Fixed(4) && vs[1] == Block(EncodeU32(KERN_SUCCESS))
    ensures ERROR_SIZE <= |bytes| && RetCode(bytes) == KERN_SUCCESS
  {
    assert Position(HEADER, fs, vs, 1) == RETCODE;
    assert CarriesAt(bytes, RETCODE, fs[1], vs[1]);
    DecodeEncodeU32(KERN_SUCCESS);
  }
}
