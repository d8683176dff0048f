/** Arrays declared CountInOut: the caller's room travels with the request and bounds the reply. */
module MigInOut {
  import opened Bytes
  import opened Options
  import opened MigLayout
  import opened MigMessage
  import opened MigRequest
  import opened MigReply
  import opened MigCall

  function Min(a: nat, b: nat): nat {
    if a < b then a else b
  }

  /** For an Out array: how many elements the caller has room for, and the request field that says so. */
  datatype Limit = Limit(room: u32, sent: nat)

  /** Some arrays of the reply are limited, each by a word of its own in the request. */
  ghost predicate Limited(s: Shape, rt: Routine, limits: seq<Option<Limit>>) {
    && |limits| == |rt.Fields()|
    && (forall k :: 0 <= k < |limits| && limits[k].Some? ==>
          && rt.Fields()[k].Var? && !rt.Fields()[k].text
          && limits[k].value.sent < |s.fs| && s.fs[limits[k].value.sent] == Fixed(4))
    && (forall i, k :: 0 <= i < k < |limits| && limits[i].Some? && limits[k].Some? ==>
          limits[i].value.sent != limits[k].value.sent)
  }

  /** WriteInitializeCount of the client: it sends no more than the declared maximum. */
  method ClientCount(room: u32, max: nat) returns (n: nat)
    ensures n == Min(room, max)
  {
    if room < max {
      n := room;
    } else {
      n := max;
    }
  }

  /** WriteInitializeCount of the server: the maximum, or less if the request says so. */
  method ServerCount(max: nat, word: seq<byte>) returns (n: nat)
    requires |word| == 4
    ensures n == Min(max, DecodeU32(word))
  {
    hide DecodeU32;
    n := max;
    if DecodeU32(word) < n {
      n := DecodeU32(word);
    }
  }

  lemma MaxFits(base: nat, fs: seq<Field>, k: nat)
    requires WellFormed(fs) && SizeOf(base, fs) < WORD && k < |fs| && fs[k].Var?
    ensures fs[k].max < WORD
  {
    hide Scaled, Align4, Offset;
    AreaBounded(base, fs, k, |fs|);
    ScaledAtLeast(fs[k].elem, fs[k].max);
  }

  /** The request values with the counts filled in. */
  method FillCounts(s: Shape, rt: Routine, vs: seq<Value>, limits: seq<Option<Limit>>) returns (filled: seq<Value>)
    requires rt.Valid() && FitAll(s.fs, vs) && Limited(s, rt, limits)
    ensures FitAll(s.fs, filled)
    ensures forall k :: 0 <= k < |limits| && limits[k].Some? ==>
              var n := Min(limits[k].value.room, rt.Fields()[k].max);
              n < WORD && filled[limits[k].value.sent] == Block(EncodeU32(n))
    ensures forall j :: 0 <= j < |vs| && (forall k :: 0 <= k < |limits| && limits[k].Some? ==> limits[k].value.sent != j) ==>
              filled[j] == vs[j]
  {
    hide EncodeU32;
    filled := vs;
    for k := 0 to |limits|
      invariant FitAll(s.fs, filled)
      invariant forall i :: 0 <= i < k && limits[i].Some? ==> Filled(rt, limits[i].value, i, filled)
      invariant forall j :: 0 <= j < |vs| && (forall i :: 0 <= i < k && limits[i].Some? ==> limits[i].value.sent != j) ==>
                  filled[j] == vs[j]
    {
      if limits[k].Some? {
        var l := limits[k].value;
        MaxFits(rt.Reply().Base(), rt.Fields(), k);
        var n := ClientCount(l.room, rt.Fields()[k].max);
        filled := filled[l.sent := Block(EncodeU32(n))];
      }
    }
  }

  ghost predicate Filled(rt: Routine, l: Limit, k: nat, filled: seq<Value>)
    requires k < |rt.Fields()| && rt.Fields()[k].Var?
  {
    var n := Min(l.room, rt.Fields()[k].max);
    l.sent < |filled| && n < WORD && filled[l.sent] == Block(EncodeU32(n))
  }

  /** What the server procedure finds in the counts of its limited arrays. */
  method ServerCounts(s: Shape, rt: Routine, limits: seq<Option<Limit>>, args: seq<Value>) returns (room: seq<nat>)
    requires Limited(s, rt, limits) && |args| == |s.fs|
    requires forall k :: 0 <= k < |limits| && limits[k].Some? ==> Filled(rt, limits[k].value, k, args)
    ensures |room| == |limits|
    ensures forall k :: 0 <= k < |limits| && limits[k].Some? ==> room[k] == Min(limits[k].value.room, rt.Fields()[k].max)
  {
    hide EncodeU32, DecodeU32;
    room := [];
    for k := 0 to |limits|
      invariant |room| == k
      invariant forall i :: 0 <= i < k && limits[i].Some? ==> room[i] == Min(limits[i].value.room, rt.Fields()[i].max)
    {
      var n := 0;
      if limits[k].Some? {
        assert Filled(rt, limits[k].value, k, args);
        n := ServerCount(rt.Fields()[k].max, args[limits[k].value.sent].data);
        DecodeEncodeU32(Min(limits[k].value.room, rt.Fields()[k].max));
      }
      room := room + [n];
    }
  }

  /** An array that the caller has no room for. */
  predicate BeyondRoom(v: Value, limit: Option<Limit>) {
    limit.Some? && v.Items? && v.count > limit.value.room
  }

  /** WriteExtractArgValueNormal over the reply: an array beyond the caller's room, or for an array
      without a limit beyond the declared maximum, fills the room, reports its true count and ends
      the extraction. */
  method CopyOut(fs: seq<Field>, values: seq<Value>, limits: seq<Option<Limit>>) returns (copied: seq<Value>, ok: bool)
    requires |values| == |limits| == |fs|
    requires forall k :: 0 <= k < |fs| && fs[k].Var? && !fs[k].text ==>
               values[k].Items? && |values[k].data| == Scaled(fs[k].elem, values[k].count) && values[k].count <= fs[k].max
    requires forall k :: 0 <= k < |fs| && limits[k].Some? ==> fs[k].Var? && !fs[k].text
    ensures ok <==> forall k :: 0 <= k < |fs| ==> !BeyondRoom(values[k], limits[k])
    ensures ok ==> copied == values
    ensures !ok ==>
              var k := |copied| - 1;
              && 0 <= k < |fs| && copied[..k] == values[..k] && BeyondRoom(values[k], limits[k])
              && Scaled(fs[k].elem, limits[k].value.room) <= |values[k].data|
              && copied[k] == Items(values[k].count, values[k].data[..Scaled(fs[k].elem, limits[k].value.room)])
  {
    hide Scaled;
    copied := [];
    for k := 0 to |fs|
      invariant copied == values[..k] && forall i :: 0 <= i < k ==> !BeyondRoom(values[i], limits[i])
    {
      var v := values[k];
      if fs[k].Var? && !fs[k].text {
        var limit := if limits[k].Some? then limits[k].value.room else fs[k].max;
        if v.count > limit {
          ScaledMonotone(fs[k].elem, limit, v.count);
          return copied + [Items(v.count, v.data[..Scaled(fs[k].elem, limit)])], false;
        }
      }
      copied := copied + [v];
    }
    ok := true;
  }

  /** What the caller gets; `Overfull` is MIG_ARRAY_TOO_LARGE for a reply.  An oversized string makes
      one of the stubs run over, and then there is no result. */
  datatype InOutResult =
    | Refused
    | RequestOverrun
    | ReplyOverrun
    | Rejected
    | Code(code: u32)
    | Overfull(copied: seq<Value>)
    | Complete(values: seq<Value>)

  lemma SameOversized(s: Shape, rt: Routine, limits: seq<Option<Limit>>, vs: seq<Value>, filled: seq<Value>, j: nat)
    requires WellFormed(s.fs) && Limited(s, rt, limits) && FitAll(s.fs, vs) && FitAll(s.fs, filled) && j < |s.fs|
    requires (forall k :: 0 <= k < |limits| && limits[k].Some? ==> limits[k].value.sent != j) ==> filled[j] == vs[j]
    ensures TooLarge(s.fs[j], filled[j]) <==> TooLarge(s.fs[j], vs[j])
    ensures Oversized(s.fs[j], filled[j]) <==> Oversized(s.fs[j], vs[j])
  {
    hide Scaled;
  }

  /** Arrays that are not oversized come with counts within their maxima. */
  lemma WithinMaxima(fs: seq<Field>, vs: seq<Value>, values: seq<Value>, k: nat)
    requires WellFormed(fs) && FitAll(fs, vs) && |values| == |fs| && k < |fs|
    requires !Oversized(fs[k], vs[k]) && values[k] == Delivered(fs[k], vs[k]) && fs[k].Var? && !fs[k].text
    ensures values[k] == vs[k] && values[k].Items? && |values[k].data| == Scaled(fs[k].elem, values[k].count)
    ensures values[k].count <= fs[k].max
  {
    hide Scaled;
  }

  /** A count is delivered as it was filled in. */
  lemma DeliveredWord(s: Shape, rt: Routine, filled: seq<Value>, args: seq<Value>, l: Limit, k: nat)
    requires WellFormed(s.fs) && FitAll(s.fs, filled) && |args| == |s.fs| && l.sent < |s.fs| && s.fs[l.sent] == Fixed(4)
    requires k < |rt.Fields()| && rt.Fields()[k].Var?
    requires args[l.sent] == Delivered(s.fs[l.sent], filled[l.sent]) && l.sent < |filled|
    requires var n := Min(l.room, rt.Fields()[k].max); n < WORD && filled[l.sent] == Block(EncodeU32(n))
    ensures Filled(rt, l, k, args)
  {
    hide EncodeU32;
  }

  /** A whole call with limited arrays, whatever the procedure produces: it is called if and only if no
      value of the request is oversized; it finds in each count the smaller of the caller's room and
      the declared maximum; and the caller gets MIG_ARRAY_TOO_LARGE if and only if some array is
      beyond its room, which is if and only if it is beyond the count that the procedure was given. */
  method InOutRoundTrip(s: Shape, rt: Routine, vs: seq<Value>, limits: seq<Option<Limit>>, zerofill: bool, stack: seq<byte>,
                        kernel: bool, replyPort: int, code: u32, ndr: seq<byte>, outs: seq<Value>, local: seq<bool>, mem: seq<byte>)
    returns (room: seq<nat>, r: InOutResult)
    requires s.Valid() && FitAll(s.fs, vs) && |stack| == s.Size() && rt.Valid() && Limited(s, rt, limits)
    requires |ndr| == NDR_SIZE && |mem| == rt.Reply().Size()
    requires code == KERN_SUCCESS && !rt.NoReplyArgs() ==> ProcedureReturned(rt, ndr, outs, local, mem)
    ensures r.Refused? || r.RequestOverrun? <==> exists k :: 0 <= k < |s.fs| && Oversized(s.fs[k], vs[k])
    ensures r.Refused? || r.RequestOverrun? ==> room == [] && exists k: nat ::
              FirstOversized(s.fs, vs, k) && (r.Refused? <==> TooLarge(s.fs[k], vs[k]))
    ensures !r.Refused? && !r.RequestOverrun? ==> |room| == |limits|
    ensures !r.Refused? && !r.RequestOverrun? ==> forall k :: 0 <= k < |limits| && limits[k].Some? ==>
              room[k] == Min(limits[k].value.room, rt.Fields()[k].max)
    ensures !r.Refused? && !r.RequestOverrun? && (code != KERN_SUCCESS || rt.NoReplyArgs()) ==> r == Code(code)
    ensures !r.Refused? && !r.RequestOverrun? && code == KERN_SUCCESS && !rt.NoReplyArgs() ==>
              var fs, all := rt.Fields(), ReplyValues(rt, ndr, outs);
              && FitAll(fs, all) && (r.Overfull? || r.Complete? || r.ReplyOverrun?)
              && (r.ReplyOverrun? <==> exists k :: 0 <= k < |fs| && Oversized(fs[k], all[k]))
              && (!r.ReplyOverrun? ==> (r.Overfull? <==> exists k :: 0 <= k < |fs| && BeyondRoom(all[k], limits[k])))
              && (!r.ReplyOverrun? ==> forall k :: 0 <= k < |fs| && limits[k].Some? ==>
                    (BeyondRoom(all[k], limits[k]) <==> all[k].count > room[k]))
              && (r.Complete? ==> |r.values| == |fs| && forall k :: 0 <= k < |fs| ==> r.values[k] == Delivered(fs[k], all[k]))
  {
    hide EncodeU32, DecodeU32, DirectFrom, Offset, Scaled, Align4, Oversized, TooLarge, NeverAccepted, NeverData;
    hide Delivered, Fits;
    var filled := FillCounts(s, rt, vs, limits);
    forall j | 0 <= j < |s.fs|
      ensures TooLarge(s.fs[j], filled[j]) <==> TooLarge(s.fs[j], vs[j])
      ensures Oversized(s.fs[j], filled[j]) <==> Oversized(s.fs[j], vs[j])
    {
      SameOversized(s, rt, limits, vs, filled, j);
    }
    var call := RequestRoundTrip(s, filled, zerofill, stack, false, kernel);
    if !call.Called? {
      ghost var k: nat :| FirstOversized(s.fs, filled, k);
      assert FirstOversized(s.fs, vs, k);
      return [], if call.ArrayTooLarge? then Refused else RequestOverrun;
    }
    forall k | 0 <= k < |limits| && limits[k].Some? ensures Filled(rt, limits[k].value, k, call.args) {
      DeliveredWord(s, rt, filled, call.args, limits[k].value, k);
    }
    room := ServerCounts(s, rt, limits, call.args);
    var c := ReplyRoundTrip(rt, replyPort, code, ndr, outs, local, zerofill, mem);
    match c {
      case Failed(_) => r := Rejected;
      case RanOver(_, _) => r := ReplyOverrun;
      case Returned(got) => r := Code(got);
      case Received(values) =>
        forall k | 0 <= k < |values| && rt.Fields()[k].Var? && !rt.Fields()[k].text
          ensures values[k] == ReplyValues(rt, ndr, outs)[k] && values[k].Items?
          ensures |values[k].data| == Scaled(rt.Fields()[k].elem, values[k].count) && values[k].count <= rt.Fields()[k].max
        {
          WithinMaxima(rt.Fields(), ReplyValues(rt, ndr, outs), values, k);
        }
        var copied, ok := CopyOut(rt.Fields(), values, limits);
        r := if ok then Complete(copied) else Overfull(copied);
    }
  }
}
