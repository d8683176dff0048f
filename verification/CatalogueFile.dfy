/** The catalogue file: MCWriteCat, which goes back to patch offsets, and MCReadCat, which chases
    them. */
module CatalogueFile {
  import opened Bytes
  import opened Options

  // ----- records -----

  type u64 = n: int | 0 <= n < 0x1_0000_0000 * 0x1_0000_0000

  /** htonl. */
  function Big32(n: u32): (s: seq<byte>)
    ensures |s| == 4
  {
    var e := EncodeU32(n);
    [e[3], e[2], e[1], e[0]]
  }

  function FromBig32(s: seq<byte>): u32
    requires |s| == 4
  {
    DecodeU32([s[3], s[2], s[1], s[0]])
  }

  /** htonll. */
  function Big64(n: u64): (s: seq<byte>)
    ensures |s| == 8
  {
    Big32(n / WORD) + Big32(n % WORD)
  }

  function FromBig64(s: seq<byte>): u64
    requires |s| == 8
  {
    Join(FromBig32(s[..4]), FromBig32(s[4..]))
  }

  function Join(high: u32, low: u32): u64 {
    high * 0x1_0000_0000 + low
  }

  /** The number whose digits in base 256 these are, the first being the highest. */
  function BigEndian(s: seq<byte>): nat {
    if s == [] then 0 else 256 * BigEndian(s[..|s| - 1]) + s[|s| - 1]
  }

  /** Network byte order. */
  lemma Big32IsBigEndian(n: u32)
    ensures BigEndian(Big32(n)) == n
  {
    hide BigEndian;
    var s := Big32(n);
    var q: int := n / 256;
    assert s == [n / 16777216, n / 65536 % 256, q % 256, n % 256];
    BigEndianStep(s);
    assert s[..3] == [s[0], s[1], s[2]];
    BigEndianStep(s[..3]);
    assert s[..3][..2] == [s[0], s[1]];
    BigEndianStep(s[..3][..2]);
    assert [s[0], s[1]][..1] == [s[0]];
    BigEndianStep([s[0]]);
    assert [s[0]][..0] == [];
    BigEndianStep([]);
    assert n / 65536 == q / 256 && n / 16777216 == q / 256 / 256;
  }

  lemma BigEndianStep(s: seq<byte>)
    ensures BigEndian(s) == if s == [] then 0 else 256 * BigEndian(s[..|s| - 1]) + s[|s| - 1]
  {
  }

  lemma Big64IsBigEndian(n: u64)
    ensures BigEndian(Big64(n)) == n
  {
    hide BigEndian, Big32;
    Big32IsBigEndian(n / WORD);
    Big32IsBigEndian(n % WORD);
    BigEndianAppend(Big32(n / WORD), Big32(n % WORD));
  }

  lemma BigEndianAppend(s: seq<byte>, t: seq<byte>)
    requires |t| == 4
    ensures BigEndian(s + t) == 0x1_0000_0000 * BigEndian(s) + BigEndian(t)
  {
    hide BigEndian;
    FourDigits(s + t);
    FourDigits(t);
    assert (s + t)[..|s|] == s && t[..0] == [];
    BigEndianStep([]);
  }

  lemma FourDigits(s: seq<byte>)
    requires |s| >= 4
    ensures var k := |s| - 4;
            BigEndian(s) == 0x1_0000_0000 * BigEndian(s[..k]) + 16777216 * (s[k] as int) + 65536 * (s[k + 1] as int)
                            + 256 * (s[k + 2] as int) + s[k + 3]
  {
    hide BigEndian;
    var k := |s| - 4;
    BigEndianStep(s);
    assert s[..k + 3][..k + 2] == s[..k + 2] && s[..k + 2][..k + 1] == s[..k + 1] && s[..k + 1][..k] == s[..k];
    BigEndianStep(s[..k + 3]);
    BigEndianStep(s[..k + 2]);
    BigEndianStep(s[..k + 1]);
  }

  lemma Big32Back(n: u32)
    ensures FromBig32(Big32(n)) == n
  {
    hide EncodeU32, DecodeU32;
    var e := EncodeU32(n);
    DecodeEncodeU32(n);
    assert [e[0], e[1], e[2], e[3]] == e;
  }

  lemma Big64Back(n: u64)
    ensures FromBig64(Big64(n)) == n
  {
    hide Big32, FromBig32;
    var s := Big64(n);
    assert s[..4] == Big32(n / WORD) && s[4..] == Big32(n % WORD);
    Big32Back(n / WORD);
    Big32Back(n % WORD);
  }

  /** What the header file that declares the records fixes and this model leaves open: magic and
      version numbers, the byte-order bit, and the bytes of padding behind each record. */
  datatype Layout = Layout(magic: seq<byte>, major: u32, minor: u32, order: Bit,
                           headPad: seq<byte>, setPad: seq<byte>, msgPad: seq<byte>)

  /** A flag that is a single bit; those in use are small. */
  type Bit = n: int | n == 1 || n == 2 || n == 4 || n == 8 witness 1

  /** `(flags & bit) != 0`. */
  predicate Has(flags: u32, bit: Bit) {
    flags / bit % 2 == 1
  }

  /** In binary, the digit at the bit's place is one. */
  lemma HasExactly(flags: u32, bit: Bit)
    ensures Has(flags, bit) <==> exists above: nat, below: nat :: Digits(flags, bit, above, below)
  {
    if Has(flags, bit) {
      assert bit * (flags / bit) + flags % bit == flags && 2 * (flags / bit / 2) + 1 == flags / bit;
      assert Digits(flags, bit, flags / bit / 2, flags % bit);
    }
    forall above: nat, below: nat | Digits(flags, bit, above, below) ensures Has(flags, bit) {
      DividedBy(flags, bit, 2 * above + 1, below);
    }
  }

  ghost predicate Digits(flags: u32, bit: Bit, above: nat, below: nat) {
    below < bit && flags == bit * (2 * above + 1) + below
  }

  datatype Head = Head(magic: seq<byte>, major: u32, minor: u32, flags: u32, numSets: u32, firstSet: u64)
  datatype SetRecord = SetRecord(setId: u32, nextSet: u64, firstMsg: u64, numMsgs: u32, dataOff: u64, dataLen: u32, invalid: u32)
  datatype MsgRecord = MsgRecord(msgId: u32, off: u64, invalid: u32)

  function HeadSize(lay: Layout): nat { |lay.magic| + 24 + |lay.headPad| }
  function SetSize(lay: Layout): nat { 40 + |lay.setPad| }
  function MsgSize(lay: Layout): nat { 16 + |lay.msgPad| }

  function PutHead(lay: Layout, h: Head): (s: seq<byte>)
    requires |h.magic| == |lay.magic|
    ensures |s| == HeadSize(lay)
  {
    h.magic + (Big32(h.major) + Big32(h.minor) + Big32(h.flags) + Big32(h.numSets) + Big64(h.firstSet)) + lay.headPad
  }

  function GetHead(lay: Layout, s: seq<byte>): Head
    requires |s| == HeadSize(lay)
  {
    var m := |lay.magic|;
    var t := s[m..m + 24];
    Head(s[..m], FromBig32(t[..4]), FromBig32(t[4..8]), FromBig32(t[8..12]), FromBig32(t[12..16]), FromBig64(t[16..24]))
  }

  function PutSet(lay: Layout, r: SetRecord): (s: seq<byte>)
    ensures |s| == SetSize(lay)
  {
    Big32(r.setId) + Big64(r.nextSet) + Big64(r.firstMsg) + Big32(r.numMsgs) + Big64(r.dataOff) + Big32(r.dataLen)
    + Big32(r.invalid) + lay.setPad
  }

  function GetSet(lay: Layout, s: seq<byte>): SetRecord
    requires |s| == SetSize(lay)
  {
    SetRecord(FromBig32(s[..4]), FromBig64(s[4..12]), FromBig64(s[12..20]), FromBig32(s[20..24]),
              FromBig64(s[24..32]), FromBig32(s[32..36]), FromBig32(s[36..40]))
  }

  function PutMsg(lay: Layout, r: MsgRecord): (s: seq<byte>)
    ensures |s| == MsgSize(lay)
  {
    Big32(r.msgId) + Big64(r.off) + Big32(r.invalid) + lay.msgPad
  }

  function GetMsg(lay: Layout, s: seq<byte>): MsgRecord
    requires |s| == MsgSize(lay)
  {
    MsgRecord(FromBig32(s[..4]), FromBig64(s[4..12]), FromBig32(s[12..16]))
  }

  lemma HeadBack(lay: Layout, h: Head)
    requires |h.magic| == |lay.magic|
    ensures GetHead(lay, PutHead(lay, h)) == h
  {
    hide Big32, FromBig32, Big64, FromBig64;
    var s, m := PutHead(lay, h), |lay.magic|;
    var t := Big32(h.major) + Big32(h.minor) + Big32(h.flags) + Big32(h.numSets) + Big64(h.firstSet);
    assert s[..m] == h.magic && s[m..m + 24] == t;
    assert t[..4] == Big32(h.major) && t[4..8] == Big32(h.minor) && t[8..12] == Big32(h.flags);
    assert t[12..16] == Big32(h.numSets) && t[16..24] == Big64(h.firstSet);
    Big32Back(h.major);
    Big32Back(h.minor);
    Big32Back(h.flags);
    Big32Back(h.numSets);
    Big64Back(h.firstSet);
  }

  lemma SetBack(lay: Layout, r: SetRecord)
    ensures GetSet(lay, PutSet(lay, r)) == r
  {
    hide Big32, FromBig32, Big64, FromBig64;
    var s := PutSet(lay, r);
    assert s[..4] == Big32(r.setId) && s[4..12] == Big64(r.nextSet) && s[12..20] == Big64(r.firstMsg);
    assert s[20..24] == Big32(r.numMsgs) && s[24..32] == Big64(r.dataOff);
    assert s[32..36] == Big32(r.dataLen) && s[36..40] == Big32(r.invalid);
    Big32Back(r.setId);
    Big64Back(r.nextSet);
    Big64Back(r.firstMsg);
    Big32Back(r.numMsgs);
    Big64Back(r.dataOff);
    Big32Back(r.dataLen);
    Big32Back(r.invalid);
  }

  lemma MsgBack(lay: Layout, r: MsgRecord)
    ensures GetMsg(lay, PutMsg(lay, r)) == r
  {
    hide Big32, FromBig32, Big64, FromBig64;
    var s := PutMsg(lay, r);
    assert s[..4] == Big32(r.msgId) && s[4..12] == Big64(r.off) && s[12..16] == Big32(r.invalid);
    Big32Back(r.msgId);
    Big64Back(r.off);
    Big32Back(r.invalid);
  }

  // ----- catalogues and where their parts stand -----

  datatype Message = Message(id: u32, text: seq<byte>)
  datatype MessageSet = MessageSet(id: u32, messages: seq<Message>)

  /** Where the text of message `m` starts in its set's data. */
  function TextOff(msgs: seq<Message>, m: nat): nat
    requires m <= |msgs|
  {
    if m == 0 then 0 else TextOff(msgs, m - 1) + |msgs[m - 1].text| + 1
  }

  function DataLen(msgs: seq<Message>): nat {
    TextOff(msgs, |msgs|)
  }

  function BlockSize(lay: Layout, set_: MessageSet): nat {
    SetSize(lay) + DataLen(set_.messages) + Scaled(MsgSize(lay), |set_.messages|)
  }

  /** Where set `k` starts in the file. */
  function Start(lay: Layout, sets: seq<MessageSet>, k: nat): nat
    requires k <= |sets|
  {
    if k == 0 then HeadSize(lay) else Start(lay, sets, k - 1) + BlockSize(lay, sets[k - 1])
  }

  function Low32(n: nat): u32 { n % 0x1_0000_0000 }
  function Low64(n: nat): u64 { n % (0x1_0000_0000 * 0x1_0000_0000) }

  /** The record of a set that starts at `at`. */
  function RecordOf(lay: Layout, set_: MessageSet, at: nat, last: bool): SetRecord {
    var data := at + SetSize(lay);
    SetRecord(set_.id, if last then 0 else Low64(at + BlockSize(lay, set_)), Low64(data + DataLen(set_.messages)),
              Low32(|set_.messages|), Low64(data), Low32(DataLen(set_.messages)), 0)
  }

  function HeadOf(lay: Layout, sets: seq<MessageSet>): Head {
    Head(lay.magic, lay.major, lay.minor, lay.order, Low32(|sets|), Low64(HeadSize(lay)))
  }

  ghost predicate Holds(b: seq<byte>, p: nat, d: seq<byte>) {
    p + |d| <= |b| && b[p..p + |d|] == d
  }

  ghost predicate TextAt(b: seq<byte>, at: nat, msgs: seq<Message>, m: nat)
    requires m < |msgs|
  {
    Holds(b, at + TextOff(msgs, m), msgs[m].text + [0])
  }

  ghost predicate RecordAt(b: seq<byte>, lay: Layout, at: nat, msgs: seq<Message>, m: nat)
    requires m < |msgs|
  {
    Holds(b, at + Scaled(MsgSize(lay), m), PutMsg(lay, MsgRecord(msgs[m].id, Low64(TextOff(msgs, m)), 0)))
  }

  /** A whole set, with all its offsets filled in. */
  ghost predicate SetAt(b: seq<byte>, lay: Layout, set_: MessageSet, at: nat, last: bool) {
    && at + BlockSize(lay, set_) <= |b|
    && Holds(b, at, PutSet(lay, RecordOf(lay, set_, at, last)))
    && TextsAt(b, at + SetSize(lay), set_.messages)
    && RecordsAt(b, lay, at + SetSize(lay) + DataLen(set_.messages), set_.messages)
  }

  ghost predicate TextsAt(b: seq<byte>, at: nat, msgs: seq<Message>) {
    forall m :: 0 <= m < |msgs| ==> TextAt(b, at, msgs, m)
  }

  ghost predicate RecordsAt(b: seq<byte>, lay: Layout, at: nat, msgs: seq<Message>) {
    forall m :: 0 <= m < |msgs| ==> RecordAt(b, lay, at, msgs, m)
  }

  /** The file holds the catalogue. */
  ghost predicate Stored(b: seq<byte>, lay: Layout, sets: seq<MessageSet>) {
    && Holds(b, 0, PutHead(lay, HeadOf(lay, sets)))
    && (forall k :: 0 <= k < |sets| ==> SetAt(b, lay, sets[k], Start(lay, sets, k), k == |sets| - 1))
  }

  /** The header of a stored catalogue, byte by byte: magic, versions, byte order, the number of sets, and
      the place of the first, right behind it. */
  lemma StoredHead(b: seq<byte>, lay: Layout, sets: seq<MessageSet>)
    requires Stored(b, lay, sets) && |sets| < WORD && HeadSize(lay) < WORD
    ensures var m := |lay.magic|;
            && m + 24 <= |b| && b[0..m] == lay.magic
            && b[m..m + 4] == Big32(lay.major) && b[m + 4..m + 8] == Big32(lay.minor)
            && b[m + 8..m + 12] == Big32(lay.order) && b[m + 12..m + 16] == Big32(|sets|)
            && b[m + 16..m + 24] == Big64(HeadSize(lay))
  {
    hide Big32, Big64, SetAt, PutHead;
    var m := |lay.magic|;
    var s := PutHead(lay, HeadOf(lay, sets));
    HeadParts(lay, HeadOf(lay, sets));
    assert b[..|s|] == s[..|s|];
    SliceOfPrefix(b, s, |s|, 0, m);
    SliceOfPrefix(b, s, |s|, m, m + 4);
    SliceOfPrefix(b, s, |s|, m + 4, m + 8);
    SliceOfPrefix(b, s, |s|, m + 8, m + 12);
    SliceOfPrefix(b, s, |s|, m + 12, m + 16);
    SliceOfPrefix(b, s, |s|, m + 16, m + 24);
  }

  lemma HeadParts(lay: Layout, h: Head)
    requires |h.magic| == |lay.magic|
    ensures var s, m := PutHead(lay, h), |lay.magic|;
            && s[0..m] == h.magic && s[m..m + 4] == Big32(h.major) && s[m + 4..m + 8] == Big32(h.minor)
            && s[m + 8..m + 12] == Big32(h.flags) && s[m + 12..m + 16] == Big32(h.numSets)
            && s[m + 16..m + 24] == Big64(h.firstSet)
  {
    hide Big32, Big64;
  }

  // ----- the file -----

  class File {
    var bytes: seq<byte>
    var pos: nat

    constructor (bytes: seq<byte>)
      ensures this.bytes == bytes && pos == 0
    {
      this.bytes, pos := bytes, 0;
    }

    method Seek(p: nat)
      modifies this`pos
      ensures pos == p
    {
      pos := p;
    }

    /** open(.., O_TRUNC). */
    method Truncate()
      modifies this
      ensures bytes == [] && pos == 0
    {
      bytes, pos := [], 0;
    }

    method Write(data: seq<byte>)
      requires pos <= |bytes|
      modifies this
      ensures pos == old(pos) + |data| <= |bytes|
      ensures |bytes| == if pos < |old(bytes)| then |old(bytes)| else pos
      ensures Holds(bytes, old(pos), data)
      ensures bytes[..old(pos)] == old(bytes)[..old(pos)]
      ensures pos <= |old(bytes)| ==> bytes[pos..] == old(bytes)[pos..]
    {
      var end := pos + |data|;
      bytes := bytes[..pos] + data + if end < |bytes| then bytes[end..] else [];
      pos := end;
    }

    /** read(): what is there, up to `n` bytes. */
    method Read(n: nat) returns (got: seq<byte>)
      modifies this`pos
      ensures got == Slice(bytes, old(pos), n) && pos == old(pos) + |got|
    {
      got := Slice(bytes, pos, n);
      pos := pos + |got|;
    }
  }

  function Slice(b: seq<byte>, p: nat, n: nat): (s: seq<byte>)
    ensures |s| <= n && (p + n <= |b| ==> |s| == n)
    ensures s != [] ==> p + |s| <= |b|
  {
    if p >= |b| then [] else if p + n <= |b| then b[p..p + n] else b[p..]
  }

  lemma HoldsBelow(b: seq<byte>, b': seq<byte>, q: nat, p: nat, d: seq<byte>)
    requires Holds(b, p, d) && p + |d| <= q <= |b| && q <= |b'| && b[..q] == b'[..q]
    ensures Holds(b', p, d)
  {
    SliceOfPrefix(b, b', q, p, p + |d|);
  }

  lemma HoldsAbove(b: seq<byte>, b': seq<byte>, q: nat, p: nat, d: seq<byte>)
    requires Holds(b, p, d) && q <= p && q <= |b| == |b'| && b[q..] == b'[q..]
    ensures Holds(b', p, d)
  {
    forall i | 0 <= i < |d| ensures b'[p..p + |d|][i] == d[i] {
      assert b[p..p + |d|][i] == b[q..][p - q + i] && b'[q..][p - q + i] == b'[p + i];
    }
  }

  lemma TextBelow(b: seq<byte>, b': seq<byte>, q: nat, at: nat, msgs: seq<Message>, m: nat)
    requires m < |msgs| && q <= |b| && q <= |b'| && b[..q] == b'[..q]
    requires TextAt(b, at, msgs, m) && at + TextOff(msgs, m + 1) <= q
    ensures TextAt(b', at, msgs, m)
  {
    hide Holds;
    HoldsBelow(b, b', q, at + TextOff(msgs, m), msgs[m].text + [0]);
  }

  lemma RecordBelow(b: seq<byte>, b': seq<byte>, q: nat, lay: Layout, at: nat, msgs: seq<Message>, m: nat)
    requires m < |msgs| && q <= |b| && q <= |b'| && b[..q] == b'[..q]
    requires RecordAt(b, lay, at, msgs, m) && at + Scaled(MsgSize(lay), m + 1) <= q
    ensures RecordAt(b', lay, at, msgs, m)
  {
    hide Holds, PutMsg, Low64;
    HoldsBelow(b, b', q, at + Scaled(MsgSize(lay), m), PutMsg(lay, MsgRecord(msgs[m].id, Low64(TextOff(msgs, m)), 0)));
  }

  // ----- writing -----

  /** The string data of a set; each message remembers its offset. */
  method WriteTexts(f: File, msgs: seq<Message>) returns (offsets: seq<nat>)
    requires f.pos <= |f.bytes|
    modifies f
    ensures |offsets| == |msgs| && forall m :: 0 <= m < |msgs| ==> offsets[m] == TextOff(msgs, m)
    ensures f.pos == old(f.pos) + DataLen(msgs) <= |f.bytes|
    ensures |f.bytes| == if f.pos < |old(f.bytes)| then |old(f.bytes)| else f.pos
    ensures f.bytes[..old(f.pos)] == old(f.bytes)[..old(f.pos)]
    ensures TextsAt(f.bytes, old(f.pos), msgs)
  {
    hide Holds, TextAt, TextOff;
    var start := f.pos;
    offsets := [];
    TextOffStep(msgs, 0);
    for k := 0 to |msgs|
      invariant |offsets| == k && forall m :: 0 <= m < k ==> offsets[m] == TextOff(msgs, m)
      invariant f.pos == start + TextOff(msgs, k) <= |f.bytes|
      invariant |f.bytes| == if f.pos < |old(f.bytes)| then |old(f.bytes)| else f.pos
      invariant f.bytes[..start] == old(f.bytes)[..start]
      invariant forall m :: 0 <= m < k ==> TextAt(f.bytes, start, msgs, m)
    {
      offsets := offsets + [f.pos - start];
      TextOffStep(msgs, k);
      ghost var before, at := f.bytes, f.pos;
      f.Write(msgs[k].text + [0]);
      SliceOfPrefix(before, f.bytes, at, 0, start);
      forall m | 0 <= m < k ensures TextAt(f.bytes, start, msgs, m) {
        TextOffMonotone(msgs, m + 1, k);
        TextBelow(before, f.bytes, at, start, msgs, m);
      }
      assert TextAt(f.bytes, start, msgs, k) by { TextHeld(f.bytes, start, msgs, k); }
    }
  }

  lemma TextOffStep(msgs: seq<Message>, k: nat)
    ensures TextOff(msgs, 0) == 0
    ensures k < |msgs| ==> TextOff(msgs, k + 1) == TextOff(msgs, k) + |msgs[k].text| + 1
  {
  }

  lemma TextHeld(b: seq<byte>, at: nat, msgs: seq<Message>, m: nat)
    requires m < |msgs| && Holds(b, at + TextOff(msgs, m), msgs[m].text + [0])
    ensures TextAt(b, at, msgs, m)
  {
  }

  lemma RecordHeld(b: seq<byte>, lay: Layout, at: nat, msgs: seq<Message>, m: nat)
    requires m < |msgs|
    requires Holds(b, at + Scaled(MsgSize(lay), m), PutMsg(lay, MsgRecord(msgs[m].id, Low64(TextOff(msgs, m)), 0)))
    ensures RecordAt(b, lay, at, msgs, m)
  {
  }

  lemma {:induction false} TextOffMonotone(msgs: seq<Message>, i: nat, j: nat)
    requires i <= j <= |msgs|
    ensures TextOff(msgs, i) <= TextOff(msgs, j)
    decreases j
  {
    if i < j {
      TextOffMonotone(msgs, i, j - 1);
    }
  }

  /** The message headers of a set. */
  method WriteRecords(f: File, lay: Layout, msgs: seq<Message>, offsets: seq<nat>)
    requires f.pos <= |f.bytes|
    requires |offsets| == |msgs| && forall m :: 0 <= m < |msgs| ==> offsets[m] == TextOff(msgs, m)
    modifies f
    ensures f.pos == old(f.pos) + Scaled(MsgSize(lay), |msgs|) <= |f.bytes|
    ensures |f.bytes| == if f.pos < |old(f.bytes)| then |old(f.bytes)| else f.pos
    ensures f.bytes[..old(f.pos)] == old(f.bytes)[..old(f.pos)]
    ensures RecordsAt(f.bytes, lay, old(f.pos), msgs)
  {
    hide Holds, PutMsg, TextOff, RecordAt, Low64;
    var start := f.pos;
    for k := 0 to |msgs|
      invariant f.pos == start + Scaled(MsgSize(lay), k) <= |f.bytes|
      invariant |f.bytes| == if f.pos < |old(f.bytes)| then |old(f.bytes)| else f.pos
      invariant f.bytes[..start] == old(f.bytes)[..start]
      invariant forall m :: 0 <= m < k ==> RecordAt(f.bytes, lay, start, msgs, m)
    {
      ghost var before, at := f.bytes, f.pos;
      f.Write(PutMsg(lay, MsgRecord(msgs[k].id, Low64(offsets[k]), 0)));
      SliceOfPrefix(before, f.bytes, at, 0, start);
      forall m | 0 <= m < k ensures RecordAt(f.bytes, lay, start, msgs, m) {
        ScaledMonotone(MsgSize(lay), m + 1, k);
        RecordBelow(before, f.bytes, at, lay, start, msgs, m);
      }
      assert RecordAt(f.bytes, lay, start, msgs, k) by { RecordHeld(f.bytes, lay, start, msgs, k); }
    }
  }

  /** One set: its record is written empty, then its texts and message headers, and then the
      record again, now that the offsets are known. */
  method WriteSet(f: File, lay: Layout, set_: MessageSet, last: bool)
    requires f.pos <= |f.bytes|
    modifies f
    ensures SetAt(f.bytes, lay, set_, old(f.pos), last)
    ensures !last ==> f.pos == old(f.pos) + BlockSize(lay, set_)
    ensures |f.bytes| == var end := old(f.pos) + BlockSize(lay, set_); if end < |old(f.bytes)| then |old(f.bytes)| else end
    ensures f.bytes[..old(f.pos)] == old(f.bytes)[..old(f.pos)]
  {
    hide Holds, PutSet, TextsAt, RecordsAt, Scaled, DataLen, Low32, Low64;
    var pos := f.pos;
    f.Write(PutSet(lay, SetRecord(set_.id, 0, 0, 0, 0, 0, 0)));
    var data := f.pos;
    ghost var b1 := f.bytes;
    var offsets := WriteTexts(f, set_.messages);
    var firstMsg := f.pos;
    ghost var b2 := f.bytes;
    WriteRecords(f, lay, set_.messages, offsets);
    var next := f.pos;
    ghost var b3 := f.bytes;
    f.Seek(pos);
    f.Write(PutSet(lay, SetRecord(set_.id, if last then 0 else Low64(next), Low64(firstMsg), Low32(|set_.messages|),
                                  Low64(data), Low32(firstMsg - data), 0)));
    if !last {
      f.Seek(next);
    }
    SliceOfPrefix(b1, b2, data, 0, pos);
    SliceOfPrefix(b2, b3, firstMsg, 0, pos);
    TextsKept(b2, b3, f.bytes, lay, data, set_.messages);
    RecordsKept(b3, f.bytes, lay, data, set_.messages);
  }

  /** Texts stay when records are written behind them and the set's record before them. */
  lemma TextsKept(b2: seq<byte>, b3: seq<byte>, b4: seq<byte>, lay: Layout, data: nat, msgs: seq<Message>)
    requires TextsAt(b2, data, msgs) && data + DataLen(msgs) <= |b2| && data + DataLen(msgs) <= |b3| == |b4|
    requires b3[..data + DataLen(msgs)] == b2[..data + DataLen(msgs)] && b4[data..] == b3[data..]
    ensures TextsAt(b4, data, msgs)
  {
    hide Holds, TextOff;
    forall m | 0 <= m < |msgs| ensures TextAt(b4, data, msgs, m) {
      assert TextAt(b2, data, msgs, m);
      TextOffMonotone(msgs, m + 1, |msgs|);
      TextBelow(b2, b3, data + DataLen(msgs), data, msgs, m);
      HoldsAbove(b3, b4, data, data + TextOff(msgs, m), msgs[m].text + [0]);
    }
  }

  lemma RecordsKept(b3: seq<byte>, b4: seq<byte>, lay: Layout, data: nat, msgs: seq<Message>)
    requires RecordsAt(b3, lay, data + DataLen(msgs), msgs) && data <= |b3| == |b4| && b4[data..] == b3[data..]
    ensures RecordsAt(b4, lay, data + DataLen(msgs), msgs)
  {
    hide Holds, TextOff, Scaled, PutMsg, Low64;
    var at := data + DataLen(msgs);
    forall m | 0 <= m < |msgs| ensures RecordAt(b4, lay, at, msgs, m) {
      assert RecordAt(b3, lay, at, msgs, m);
      HoldsAbove(b3, b4, data, at + Scaled(MsgSize(lay), m), PutMsg(lay, MsgRecord(msgs[m].id, Low64(TextOff(msgs, m)), 0)));
    }
  }

  /** A whole set stays where the bytes up to its end stay. */
  lemma SetBelow(b: seq<byte>, b': seq<byte>, q: nat, lay: Layout, set_: MessageSet, at: nat, last: bool)
    requires SetAt(b, lay, set_, at, last) && at + BlockSize(lay, set_) <= q <= |b| && q <= |b'| && b[..q] == b'[..q]
    ensures SetAt(b', lay, set_, at, last)
  {
    hide Holds, PutSet, RecordOf;
    var msgs := set_.messages;
    var data := at + SetSize(lay);
    var first := data + DataLen(msgs);
    HoldsBelow(b, b', q, at, PutSet(lay, RecordOf(lay, set_, at, last)));
    forall m | 0 <= m < |msgs| ensures TextAt(b', data, msgs, m) {
      assert TextAt(b, data, msgs, m);
      TextOffMonotone(msgs, m + 1, |msgs|);
      TextBelow(b, b', q, data, msgs, m);
    }
    forall m | 0 <= m < |msgs| ensures RecordAt(b', lay, first, msgs, m) {
      assert RecordAt(b, lay, first, msgs, m);
      ScaledMonotone(MsgSize(lay), m + 1, |msgs|);
      RecordBelow(b, b', q, lay, first, msgs, m);
    }
  }

  lemma {:induction false} StartMonotone(lay: Layout, sets: seq<MessageSet>, i: nat, j: nat)
    requires i <= j <= |sets|
    ensures HeadSize(lay) <= Start(lay, sets, i) <= Start(lay, sets, j)
    decreases j
  {
    if i < j {
      StartMonotone(lay, sets, i, j - 1);
    } else if i > 0 {
      StartMonotone(lay, sets, i - 1, i - 1);
    }
  }

  /** MCWriteCat, over whatever the file held before. */
  method WriteCat(f: File, lay: Layout, sets: seq<MessageSet>)
    modifies f
    ensures Stored(f.bytes, lay, sets)
    ensures |f.bytes| == var end := Start(lay, sets, |sets|); if end < |old(f.bytes)| then |old(f.bytes)| else end
  {
    hide Holds, PutHead, SetAt, Start;
    f.Seek(0);
    f.Write(PutHead(lay, HeadOf(lay, sets).(firstSet := 0)));
    var firstSet := f.pos;
    f.Seek(0);
    f.Write(PutHead(lay, HeadOf(lay, sets).(firstSet := Low64(firstSet))));
    StartStep(lay, sets, 0);
    for k := 0 to |sets|
      invariant k < |sets| || k == 0 ==> f.pos == Start(lay, sets, k)
      invariant Start(lay, sets, k) <= |f.bytes|
      invariant |f.bytes| == var end := Start(lay, sets, k); if end < |old(f.bytes)| then |old(f.bytes)| else end
      invariant Holds(f.bytes, 0, PutHead(lay, HeadOf(lay, sets)))
      invariant forall j :: 0 <= j < k ==> SetAt(f.bytes, lay, sets[j], Start(lay, sets, j), j == |sets| - 1)
    {
      ghost var before, at := f.bytes, f.pos;
      StartStep(lay, sets, k);
      WriteSet(f, lay, sets[k], k == |sets| - 1);
      StartMonotone(lay, sets, k, k);
      HoldsBelow(before, f.bytes, at, 0, PutHead(lay, HeadOf(lay, sets)));
      forall j | 0 <= j < k ensures SetAt(f.bytes, lay, sets[j], Start(lay, sets, j), j == |sets| - 1) {
        StartStep(lay, sets, j);
        StartMonotone(lay, sets, j + 1, k);
        SetBelow(before, f.bytes, at, lay, sets[j], Start(lay, sets, j), j == |sets| - 1);
      }
    }
  }

  lemma StartStep(lay: Layout, sets: seq<MessageSet>, k: nat)
    ensures Start(lay, sets, 0) == HeadSize(lay)
    ensures k < |sets| ==> Start(lay, sets, k + 1) == Start(lay, sets, k) + BlockSize(lay, sets[k])
  {
  }

  // ----- reading -----

  /** The largest offset lseek takes, plus one. */
  const OFF_LIMIT := 0x8000_0000 * 0x1_0000_0000

  ghost predicate NulFree(msgs: seq<Message>) {
    forall m :: 0 <= m < |msgs| ==> 0 !in msgs[m].text
  }

  /** The string data fits an int. */
  ghost predicate SetFits(set_: MessageSet) {
    DataLen(set_.messages) < 0x8000_0000 && NulFree(set_.messages)
  }

  ghost predicate Fits(lay: Layout, sets: seq<MessageSet>) {
    Start(lay, sets, |sets|) < OFF_LIMIT && forall k :: 0 <= k < |sets| ==> SetFits(sets[k])
  }

  lemma HoldsSlice(b: seq<byte>, p: nat, d: seq<byte>)
    requires Holds(b, p, d)
    ensures Slice(b, p, |d|) == d
  {
  }

  // What the reader makes of any file, as functions of its bytes.

  /** The string at `off`; None when it would not end inside the data. */
  function TextIn(data: seq<byte>, off: nat): Option<seq<byte>>
    decreases |data| - off
  {
    if off >= |data| then None
    else if data[off] == 0 then Some([])
    else
      match TextIn(data, off + 1)
      case None => None
      case Some(t) => Some([data[off]] + t)
  }

  datatype MessagesRead = Messages(msgs: seq<Message>) | Short | Outside {
    function After(msgs': seq<Message>): MessagesRead {
      if Messages? then Messages(msgs' + msgs) else this
    }
  }

  /** `num` messages from the records at `pos`; records marked invalid are passed over. */
  function MessagesFrom(b: seq<byte>, lay: Layout, pos: nat, num: nat, data: seq<byte>): MessagesRead
    decreases if pos <= |b| then |b| - pos else 0
  {
    if num == 0 then Messages([])
    else
      var got := Slice(b, pos, MsgSize(lay));
      if |got| != MsgSize(lay) then Short
      else
        var r := GetMsg(lay, got);
        if r.invalid != 0 then MessagesFrom(b, lay, pos + MsgSize(lay), num, data)
        else
          match TextIn(data, r.off)
          case None => Outside
          case Some(t) => MessagesFrom(b, lay, pos + MsgSize(lay), num - 1, data).After([Message(r.msgId, t)])
  }

  /** The messages that a set's record leads to. */
  function DataOf(b: seq<byte>, lay: Layout, r: SetRecord): MessagesRead {
    var data := Slice(b, r.dataOff, r.dataLen);
    if r.dataLen == 0 then Messages([])
    else if r.dataOff >= OFF_LIMIT || |data| != r.dataLen || r.firstMsg >= OFF_LIMIT then Short
    else MessagesFrom(b, lay, r.firstMsg, r.numMsgs, data)
  }

  /** The first valid set record at or behind `pos`. */
  function RecordFrom(b: seq<byte>, lay: Layout, pos: nat): Option<SetRecord>
    decreases if pos <= |b| then |b| - pos else 0
  {
    var got := Slice(b, pos, SetSize(lay));
    if |got| != SetSize(lay) then None
    else if GetSet(lay, got).invalid != 0 then RecordFrom(b, lay, pos + SetSize(lay))
    else Some(GetSet(lay, got))
  }

  /** How MCReadCat ends: with the sets, with one of its error messages, with a string outside its
      data; or never, because an offset leads back to a set that it has read. */
  datatype Outcome = Loaded(sets: seq<MessageSet>) | Corrupt | BadVersion | BadOrder | Overrun | Endless {
    function After(sets': seq<MessageSet>): Outcome {
      if Loaded? then Loaded(sets' + sets) else this
    }
  }

  /** Places below `n`, each seen once. */
  ghost predicate Below(seen: set<nat>, n: nat) {
    forall p :: p in seen ==> p < n
  }

  lemma {:induction false} BelowIsFew(seen: set<nat>, n: nat)
    requires Below(seen, n)
    ensures |seen| <= n
  {
    if n > 0 {
      BelowIsFew(seen - {n - 1}, n - 1);
    } else {
      assert seen == {};
    }
  }

  lemma RecordIsInside(b: seq<byte>, lay: Layout, pos: nat)
    ensures RecordFrom(b, lay, pos).Some? ==> pos < |b|
  {
    hide GetSet;
    RecordStep(b, lay, pos);
  }

  /** The chain of sets that starts at `start`; `seen` are the places already read.  The chain from a
      place is always the same, so one that comes back never ends. */
  ghost function SetsFrom(b: seq<byte>, lay: Layout, start: nat, seen: set<nat>): Outcome
    requires Below(seen, |b|) && start !in seen
    decreases |b| - |seen|
  {
    RecordIsInside(b, lay, start);
    match RecordFrom(b, lay, start)
    case None => Corrupt
    case Some(r) =>
      match DataOf(b, lay, r)
      case Short => Corrupt
      case Outside => Overrun
      case Messages(msgs) =>
        if r.nextSet == 0 then Loaded([MessageSet(r.setId, msgs)])
        else if r.nextSet >= OFF_LIMIT then Corrupt
        else
          BelowIsFew(seen + {start}, |b|);
          if r.nextSet in seen + {start} then Endless
          else SetsFrom(b, lay, r.nextSet, seen + {start}).After([MessageSet(r.setId, msgs)])
  }

  /** A whole file. */
  ghost function Reading(b: seq<byte>, lay: Layout): Outcome {
    var s := Slice(b, 0, HeadSize(lay));
    if |s| != HeadSize(lay) then Corrupt
    else
      var h := GetHead(lay, s);
      if h.magic != lay.magic then Corrupt
      else if h.major != lay.major then BadVersion
      else if !Has(h.flags, lay.order) then BadOrder
      else if h.firstSet >= OFF_LIMIT then Corrupt
      else SetsFrom(b, lay, h.firstSet, {})
  }

  lemma {:induction false} SetsBlameNoHead(b: seq<byte>, lay: Layout, start: nat, seen: set<nat>)
    requires Below(seen, |b|) && start !in seen
    ensures SetsFrom(b, lay, start, seen) != BadVersion && SetsFrom(b, lay, start, seen) != BadOrder
    decreases |b| - |seen|
  {
    hide RecordFrom, DataOf, SetsFrom;
    SetsStep(b, lay, start, seen);
    RecordIsInside(b, lay, start);
    var r := RecordFrom(b, lay, start);
    if r.Some? && Below(seen + {start}, |b|) && r.value.nextSet !in seen + {start} {
      BelowIsFew(seen + {start}, |b|);
      SetsBlameNoHead(b, lay, r.value.nextSet, seen + {start});
    }
  }

  lemma FromBig32Exactly(s: seq<byte>, n: u32)
    requires |s| == 4
    ensures FromBig32(s) == n <==> s == Big32(n)
  {
    Big32Back(n);
    var v := FromBig32(s);
    BytesOfWord(s[3], s[2], s[1], s[0]);
    assert Big32(v) == s;
  }

  lemma BytesOfWord(b0: byte, b1: byte, b2: byte, b3: byte)
    ensures EncodeU32(DecodeU32([b0, b1, b2, b3])) == [b0, b1, b2, b3]
  {
    var n: int := DecodeU32([b0, b1, b2, b3]);
    assert n / 256 == b1 + 256 * (b2 as int) + 65536 * (b3 as int);
    assert n / 65536 == b2 + 256 * (b3 as int);
    assert n / 16777216 == b3;
  }

  /** The header, on the bytes of the file.  A file that is too short or has another magic is corrupt; then
      another major version, and then a missing byte-order flag, are what is reported, and never for
      any other reason.  Nothing is read from a file with a wrong header. */
  lemma HeadIsChecked(b: seq<byte>, lay: Layout)
    ensures var m, r := |lay.magic|, Reading(b, lay);
            && (|b| < m + 24 + |lay.headPad| || b[..m] != lay.magic ==> r == Corrupt)
            && (r == BadVersion <==>
                  |b| >= m + 24 + |lay.headPad| && b[..m] == lay.magic && b[m..m + 4] != Big32(lay.major))
            && (r == BadOrder <==>
                  && |b| >= m + 24 + |lay.headPad| && b[..m] == lay.magic && b[m..m + 4] == Big32(lay.major)
                  && !Has(FromBig32(b[m + 8..m + 12]), lay.order))
  {
    hide FromBig32, Big32, Has, SetsFrom, FromBig64;
    var m := |lay.magic|;
    var s := Slice(b, 0, HeadSize(lay));
    if |b| >= HeadSize(lay) {
      var t := s[m..m + 24];
      assert s == b[..HeadSize(lay)] && s[..m] == b[..m] && t == b[m..m + 24];
      SliceOfSlice(b, m, m + 24, 8);
      SliceOfSlice(b, m + 8, m + 24, 4);
      assert t[..4] == b[m..m + 4] && t[8..12] == t[8..][..4] == b[m + 8..m + 12];
      FromBig32Exactly(b[m..m + 4], lay.major);
      SetsBlameNoHead(b, lay, GetHead(lay, s).firstSet, {});
    }
  }

  // ----- the reader's code -----

  function Left(f: File): nat
    reads f
  {
    if f.pos <= |f.bytes| then |f.bytes| - f.pos else 0
  }

  /** dupstr(data + off). */
  method DupStr(data: seq<byte>, off: nat) returns (t: Option<seq<byte>>)
    ensures t == TextIn(data, off)
  {
    hide TextIn;
    var end := off;
    ghost var all := TextIn(data, off);
    TextStep(data, off);
    while end < |data| && data[end] != 0
      invariant off <= end && (end <= |data| || end == off)
      invariant off < |data| ==> all == Behind(data[off..end], TextIn(data, end))
      invariant off >= |data| ==> end == off
    {
      TextStep(data, end);
      BehindOne(data, off, end, TextIn(data, end + 1));
      end := end + 1;
    }
    TextStep(data, end);
    if end >= |data| {
      return None;
    }
    t := Some(data[off..end]);
    assert data[off..end] + [] == data[off..end];
  }

  /** A text with more in front. */
  ghost function Behind(s: seq<byte>, t: Option<seq<byte>>): Option<seq<byte>> {
    match t
    case None => None
    case Some(u) => Some(s + u)
  }

  lemma TextStep(data: seq<byte>, off: nat)
    ensures off >= |data| ==> TextIn(data, off) == None
    ensures off < |data| && data[off] == 0 ==> TextIn(data, off) == Some([])
    ensures off < |data| && data[off] != 0 ==> TextIn(data, off) == Behind([data[off]], TextIn(data, off + 1))
    ensures off < |data| ==> TextIn(data, off) == Behind(data[off..off], TextIn(data, off))
  {
    if off < |data| && TextIn(data, off).Some? {
      assert data[off..off] + TextIn(data, off).value == TextIn(data, off).value;
    }
  }

  lemma BehindOne(data: seq<byte>, off: nat, end: nat, t: Option<seq<byte>>)
    requires off <= end < |data|
    ensures Behind(data[off..end], Behind([data[end]], t)) == Behind(data[off..end + 1], t)
  {
    assert data[off..end + 1] == data[off..end] + [data[end]];
    if t.Some? {
      assert data[off..end] + ([data[end]] + t.value) == data[off..end + 1] + t.value;
    }
  }

  /** The loop over the message headers of a set. */
  method ReadMessages(f: File, lay: Layout, num: u32, data: seq<byte>) returns (r: MessagesRead)
    modifies f`pos
    ensures r == MessagesFrom(f.bytes, lay, old(f.pos), num, data)
  {
    hide GetMsg, Slice, TextIn, MessagesFrom;
    var list, i := [], 0;
    ghost var all := MessagesFrom(f.bytes, lay, f.pos, num, data);
    MessagesAfterNone(all);
    while i < num
      invariant 0 <= i <= num && all == MessagesFrom(f.bytes, lay, f.pos, num - i, data).After(list)
      decreases Left(f)
    {
      MessagesStep(f.bytes, lay, f.pos, num - i, data);
      var got := f.Read(MsgSize(lay));
      if |got| != MsgSize(lay) {
        return Short;
      }
      var mcMsg := GetMsg(lay, got);
      if mcMsg.invalid == 0 {
        var text := DupStr(data, mcMsg.off);
        if text == None {
          return Outside;
        }
        ghost var rest := MessagesFrom(f.bytes, lay, f.pos, num - i - 1, data);
        MessagesAfterTwo(rest, list, [Message(mcMsg.msgId, text.value)]);
        list, i := list + [Message(mcMsg.msgId, text.value)], i + 1;
      }
    }
    MessagesStep(f.bytes, lay, f.pos, 0, data);
    assert list + [] == list;
    return Messages(list);
  }

  lemma MessagesStep(b: seq<byte>, lay: Layout, pos: nat, num: nat, data: seq<byte>)
    ensures num == 0 ==> MessagesFrom(b, lay, pos, num, data) == Messages([])
    ensures num > 0 ==>
              var got := Slice(b, pos, MsgSize(lay));
              MessagesFrom(b, lay, pos, num, data) ==
              if |got| != MsgSize(lay) then Short
              else if GetMsg(lay, got).invalid != 0 then MessagesFrom(b, lay, pos + MsgSize(lay), num, data)
              else if TextIn(data, GetMsg(lay, got).off).None? then Outside
              else MessagesFrom(b, lay, pos + MsgSize(lay), num - 1, data)
                   .After([Message(GetMsg(lay, got).msgId, TextIn(data, GetMsg(lay, got).off).value)])
  {
    hide GetMsg, Slice, TextIn;
  }

  lemma MessagesAfterNone(r: MessagesRead)
    ensures r.After([]) == r
  {
    if r.Messages? {
      assert [] + r.msgs == r.msgs;
    }
  }

  lemma MessagesAfterTwo(r: MessagesRead, s: seq<Message>, t: seq<Message>)
    ensures r.After(t).After(s) == r.After(s + t)
  {
    if r.Messages? {
      assert s + (t + r.msgs) == s + t + r.msgs;
    }
  }

  /** The part of MCReadCat that reads the messages of one set. */
  method ReadData(f: File, lay: Layout, r: SetRecord) returns (got: MessagesRead)
    modifies f`pos
    ensures got == DataOf(f.bytes, lay, r)
  {
    hide Slice, MessagesFrom;
    if r.dataLen == 0 {
      return Messages([]);
    }
    if r.dataOff >= OFF_LIMIT {
      return Short;
    }
    f.Seek(r.dataOff);
    var data := f.Read(r.dataLen);
    if |data| != r.dataLen {
      return Short;
    }
    if r.firstMsg >= OFF_LIMIT {
      return Short;
    }
    f.Seek(r.firstMsg);
    got := ReadMessages(f, lay, r.numMsgs, data);
  }

  /** One pass of the loop over sets: the next valid record, and its messages. */
  method ReadSet(f: File, lay: Layout) returns (r: Option<SetRecord>, got: MessagesRead)
    modifies f`pos
    ensures r == RecordFrom(f.bytes, lay, old(f.pos))
    ensures r.Some? ==> got == DataOf(f.bytes, lay, r.value) && old(f.pos) < |f.bytes|
  {
    hide GetSet, Slice, DataOf, RecordFrom;
    ghost var first := f.pos;
    while true
      invariant first <= f.pos && RecordFrom(f.bytes, lay, first) == RecordFrom(f.bytes, lay, f.pos)
      decreases Left(f)
    {
      RecordStep(f.bytes, lay, f.pos);
      var s := f.Read(SetSize(lay));
      if |s| != SetSize(lay) {
        return None, Short;
      }
      var rec := GetSet(lay, s);
      if rec.invalid == 0 {
        got := ReadData(f, lay, rec);
        return Some(rec), got;
      }
    }
  }

  lemma RecordStep(b: seq<byte>, lay: Layout, pos: nat)
    ensures var got := Slice(b, pos, SetSize(lay));
            RecordFrom(b, lay, pos) ==
            if |got| != SetSize(lay) then None
            else if GetSet(lay, got).invalid != 0 then RecordFrom(b, lay, pos + SetSize(lay))
            else Some(GetSet(lay, got))
  {
    hide GetSet, Slice;
  }

  /** The loop over sets; `seen` only serves to tell when it would go on forever. */
  method ReadSets(f: File, lay: Layout) returns (r: Outcome)
    modifies f`pos
    ensures r == SetsFrom(f.bytes, lay, old(f.pos), {})
  {
    hide RecordFrom, DataOf, SetsFrom;
    var list, start := [], f.pos;
    var seen: set<nat> := {};
    ghost var all := SetsFrom(f.bytes, lay, start, {});
    SetsAfterNone(all);
    while true
      invariant f.pos == start && Below(seen, |f.bytes|) && start !in seen
      invariant all == SetsFrom(f.bytes, lay, start, seen).After(list)
      decreases |f.bytes| - |seen|
    {
      SetsStep(f.bytes, lay, start, seen);
      var rec, got := ReadSet(f, lay);
      if rec == None {
        return Corrupt;
      }
      var set_;
      match got {
        case Short => return Corrupt;
        case Outside => return Overrun;
        case Messages(msgs) => set_ := MessageSet(rec.value.setId, msgs);
      }
      if rec.value.nextSet == 0 {
        return Loaded(list + [set_]);
      }
      if rec.value.nextSet >= OFF_LIMIT {
        return Corrupt;
      }
      BelowIsFew(seen + {start}, |f.bytes|);
      seen := seen + {start};
      if rec.value.nextSet in seen {
        return Endless;
      }
      SetsAfterTwo(SetsFrom(f.bytes, lay, rec.value.nextSet, seen), list, [set_]);
      list, start := list + [set_], rec.value.nextSet;
      f.Seek(start);
    }
  }

  lemma SetsStep(b: seq<byte>, lay: Layout, start: nat, seen: set<nat>)
    requires Below(seen, |b|) && start !in seen
    ensures var r := RecordFrom(b, lay, start);
            SetsFrom(b, lay, start, seen) ==
            if r.None? then Corrupt
            else if DataOf(b, lay, r.value).Short? then Corrupt
            else if DataOf(b, lay, r.value).Outside? then Overrun
            else
              var set_ := MessageSet(r.value.setId, DataOf(b, lay, r.value).msgs);
              if r.value.nextSet == 0 then Loaded([set_])
              else if r.value.nextSet >= OFF_LIMIT then Corrupt
              else if r.value.nextSet in seen + {start} || !Below(seen + {start}, |b|) then Endless
              else SetsFrom(b, lay, r.value.nextSet, seen + {start}).After([set_])
  {
    hide RecordFrom, DataOf;
    RecordIsInside(b, lay, start);
  }

  lemma SetsAfterNone(r: Outcome)
    ensures r.After([]) == r
  {
    if r.Loaded? {
      assert [] + r.sets == r.sets;
    }
  }

  lemma SetsAfterTwo(r: Outcome, s: seq<MessageSet>, t: seq<MessageSet>)
    ensures r.After(t).After(s) == r.After(s + t)
  {
    if r.Loaded? {
      assert s + (t + r.sets) == s + t + r.sets;
    }
  }

  // ----- the loop that the source runs -----

  /** Where the loop over sets seeks after reading the set at `p`; None when it is left there. */
  ghost function Hop(b: seq<byte>, lay: Layout, p: nat): Option<nat> {
    match RecordFrom(b, lay, p)
    case None => None
    case Some(r) =>
      if DataOf(b, lay, r).Messages? && 0 < r.nextSet < OFF_LIMIT then Some(r.nextSet) else None
  }

  /** The place at which iteration `n` starts, if the loop gets that far. */
  ghost function Hops(b: seq<byte>, lay: Layout, start: nat, n: nat): Option<nat> {
    if n == 0 then Some(start)
    else
      match Hops(b, lay, start, n - 1)
      case None => None
      case Some(p) => Hop(b, lay, p)
  }

  lemma SetsByHop(b: seq<byte>, lay: Layout, start: nat, seen: set<nat>)
    requires Below(seen, |b|) && start !in seen
    ensures var next := Hop(b, lay, start);
            && (next.None? ==> SetsFrom(b, lay, start, seen) != Endless)
            && (next.Some? ==> start < |b| && Below(seen + {start}, |b|))
            && (next.Some? && next.value in seen + {start} ==> SetsFrom(b, lay, start, seen) == Endless)
            && (next.Some? && next.value !in seen + {start} ==>
                  (SetsFrom(b, lay, start, seen) == Endless <==> SetsFrom(b, lay, next.value, seen + {start}) == Endless))
  {
    hide SetsFrom, RecordFrom, DataOf;
    RecordIsInside(b, lay, start);
    SetsStep(b, lay, start, seen);
  }

  /** Every place of `places` leads to another one of them. */
  ghost predicate Closed(b: seq<byte>, lay: Layout, places: set<nat>, more: set<nat>) {
    forall p :: p in places ==> Hop(b, lay, p).Some? && Hop(b, lay, p).value in places + more
  }

  lemma {:induction false} EndlessIsClosed(b: seq<byte>, lay: Layout, start: nat, seen: set<nat>) returns (places: set<nat>)
    requires Below(seen, |b|) && start !in seen && Closed(b, lay, seen, {start})
    requires SetsFrom(b, lay, start, seen) == Endless
    ensures seen + {start} <= places && Closed(b, lay, places, {})
    decreases |b| - |seen|
  {
    hide SetsFrom, Hop;
    SetsByHop(b, lay, start, seen);
    var next := Hop(b, lay, start).value;
    places := seen + {start};
    if next !in places {
      BelowIsFew(places, |b|);
      places := EndlessIsClosed(b, lay, next, places);
    }
  }

  lemma {:induction false} ClosedNeverEnds(b: seq<byte>, lay: Layout, start: nat, places: set<nat>, n: nat)
    requires start in places && Closed(b, lay, places, {})
    ensures Hops(b, lay, start, n).Some? && Hops(b, lay, start, n).value in places
  {
    hide Hop;
    if n > 0 {
      ClosedNeverEnds(b, lay, start, places, n - 1);
    }
  }

  lemma {:induction false} HopsShift(b: seq<byte>, lay: Layout, start: nat, n: nat)
    requires Hop(b, lay, start).Some?
    ensures Hops(b, lay, start, n + 1) == Hops(b, lay, Hop(b, lay, start).value, n)
  {
    hide Hop;
    if n == 0 {
      assert Hops(b, lay, start, 0) == Some(start);
    } else {
      HopsShift(b, lay, start, n - 1);
    }
  }

  lemma {:induction false} OtherwiseItEnds(b: seq<byte>, lay: Layout, start: nat, seen: set<nat>) returns (n: nat)
    requires Below(seen, |b|) && start !in seen && SetsFrom(b, lay, start, seen) != Endless
    ensures Hops(b, lay, start, n).None?
    decreases |b| - |seen|
  {
    hide SetsFrom, Hop;
    SetsByHop(b, lay, start, seen);
    if Hop(b, lay, start).None? {
      assert Hops(b, lay, start, 0) == Some(start);
      n := 1;
    } else {
      var next := Hop(b, lay, start).value;
      BelowIsFew(seen + {start}, |b|);
      n := OtherwiseItEnds(b, lay, next, seen + {start});
      HopsShift(b, lay, start, n);
      n := n + 1;
    }
  }

  /** The outcome Endless, which is found by remembering places, is exactly that the source's loop,
      which remembers nothing, runs for ever. */
  lemma EndlessExactly(b: seq<byte>, lay: Layout, start: nat)
    ensures SetsFrom(b, lay, start, {}) == Endless <==> forall n: nat :: Hops(b, lay, start, n).Some?
  {
    hide SetsFrom, Hop, Hops;
    if SetsFrom(b, lay, start, {}) == Endless {
      var places := EndlessIsClosed(b, lay, start, {});
      forall n: nat ensures Hops(b, lay, start, n).Some? {
        ClosedNeverEnds(b, lay, start, places, n);
      }
    } else {
      var n := OtherwiseItEnds(b, lay, start, {});
    }
  }

  /** A file with one set whose next offset is its own. */
  function SelfLinked(lay: Layout): seq<byte>
    requires HeadSize(lay) < OFF_LIMIT
  {
    PutHead(lay, HeadOf(lay, [MessageSet(1, [])])) + PutSet(lay, SetRecord(1, HeadSize(lay), 0, 0, 0, 0, 0))
  }

  /** MCReadCat never ends on it, whatever the layout. */
  lemma SelfLinkedIsEndless(lay: Layout)
    requires HeadSize(lay) < OFF_LIMIT
    ensures Reading(SelfLinked(lay), lay) == Endless
    ensures forall n: nat :: Hops(SelfLinked(lay), lay, HeadSize(lay), n).Some?
  {
    hide PutHead, GetHead, PutSet, GetSet, Has, SetsFrom, RecordFrom, Hops;
    var b, h := SelfLinked(lay), HeadOf(lay, [MessageSet(1, [])]);
    var r, p := SetRecord(1, HeadSize(lay), 0, 0, 0, 0, 0), HeadSize(lay);
    assert Holds(b, 0, PutHead(lay, h)) && Holds(b, p, PutSet(lay, r));
    HeadRead(b, lay, [MessageSet(1, [])], Slice(b, 0, p));
    HoldsSlice(b, p, PutSet(lay, r));
    SetBack(lay, r);
    RecordStep(b, lay, p);
    SetsByHop(b, lay, p, {});
    EndlessExactly(b, lay, p);
  }

  /** MCReadCat on a file just opened. */
  method ReadCat(f: File, lay: Layout) returns (r: Outcome)
    requires f.pos == 0
    modifies f`pos
    ensures r == Reading(f.bytes, lay)
  {
    hide GetHead, Slice, Has, SetsFrom;
    var s := f.Read(HeadSize(lay));
    if |s| != HeadSize(lay) {
      return Corrupt;
    }
    var h := GetHead(lay, s);
    if h.magic != lay.magic {
      return Corrupt;
    }
    if h.major != lay.major {
      return BadVersion;
    }
    if !Has(h.flags, lay.order) {
      return BadOrder;
    }
    if h.firstSet >= OFF_LIMIT {
      return Corrupt;
    }
    f.Seek(h.firstSet);
    r := ReadSets(f, lay);
  }

  // ----- reading what was written -----

  lemma {:induction false} TextFound(data: seq<byte>, off: nat, text: seq<byte>)
    requires 0 !in text && Holds(data, off, text + [0])
    ensures TextIn(data, off) == Some(text)
    decreases |text|
  {
    var d := text + [0];
    assert data[off] == data[off..off + |d|][0] == d[0];
    if text != [] {
      assert d[0] == text[0] && text[0] in text;
      assert data[off + 1..off + |d|] == data[off..off + |d|][1..];
      assert d[1..] == text[1..] + [0];
      TextFound(data, off + 1, text[1..]);
      assert text == [text[0]] + text[1..];
    }
  }

  /** The parts of a set's messages are where the reader looks for them. */
  ghost predicate Readable(b: seq<byte>, lay: Layout, at: nat, data: seq<byte>, msgs: seq<Message>) {
    && RecordsAt(b, lay, at, msgs) && TextsAt(data, 0, msgs) && DataLen(msgs) < 0x8000_0000 && NulFree(msgs)
  }

  /** What the reader makes of record `m`. */
  lemma NextMessage(b: seq<byte>, lay: Layout, at: nat, data: seq<byte>, msgs: seq<Message>, m: nat, got: seq<byte>)
    requires Readable(b, lay, at, data, msgs) && m < |msgs|
    requires got == Slice(b, at + Scaled(MsgSize(lay), m), MsgSize(lay))
    ensures |got| == MsgSize(lay)
    ensures var r := GetMsg(lay, got); r.msgId == msgs[m].id && r.off == TextOff(msgs, m) && r.invalid == 0
    ensures 0 !in msgs[m].text && Holds(data, TextOff(msgs, m), msgs[m].text + [0])
    ensures Scaled(MsgSize(lay), m + 1) == Scaled(MsgSize(lay), m) + MsgSize(lay)
  {
    hide Holds, PutMsg, GetMsg, TextOff, Slice;
    assert RecordAt(b, lay, at, msgs, m) && TextAt(data, 0, msgs, m);
    TextOffMonotone(msgs, m, |msgs|);
    var r := MsgRecord(msgs[m].id, TextOff(msgs, m), 0);
    HoldsSlice(b, at + Scaled(MsgSize(lay), m), PutMsg(lay, r));
    MsgBack(lay, r);
  }

  lemma {:induction false} MessagesFound(b: seq<byte>, lay: Layout, at: nat, data: seq<byte>, msgs: seq<Message>, m: nat)
    requires Readable(b, lay, at, data, msgs) && m <= |msgs|
    ensures MessagesFrom(b, lay, at + Scaled(MsgSize(lay), m), |msgs| - m, data) == Messages(msgs[m..])
    decreases |msgs| - m
  {
    hide Readable, Holds, GetMsg, Slice, Scaled, TextOff, TextIn, MessagesFrom;
    var pos := at + Scaled(MsgSize(lay), m);
    MessagesStep(b, lay, pos, |msgs| - m, data);
    if m < |msgs| {
      NextMessage(b, lay, at, data, msgs, m, Slice(b, pos, MsgSize(lay)));
      TextFound(data, TextOff(msgs, m), msgs[m].text);
      MessagesFound(b, lay, at, data, msgs, m + 1);
      assert msgs[m..] == [msgs[m]] + msgs[m + 1..];
    }
  }

  /** A set's record as the writer leaves it, with offsets that fit. */
  ghost predicate Describes(r: SetRecord, lay: Layout, set_: MessageSet, at: nat, last: bool) {
    && r.setId == set_.id && r.invalid == 0
    && r.nextSet == (if last then 0 else at + BlockSize(lay, set_))
    && r.dataOff == at + SetSize(lay) && r.firstMsg == r.dataOff + DataLen(set_.messages)
    && r.numMsgs == |set_.messages| && r.dataLen == DataLen(set_.messages)
    && at + BlockSize(lay, set_) < OFF_LIMIT
  }

  lemma NextSet(b: seq<byte>, lay: Layout, set_: MessageSet, at: nat, last: bool, got: seq<byte>)
    requires SetAt(b, lay, set_, at, last) && SetFits(set_) && at + BlockSize(lay, set_) < OFF_LIMIT
    requires got == Slice(b, at, SetSize(lay))
    ensures |got| == SetSize(lay) && Describes(GetSet(lay, got), lay, set_, at, last)
  {
    hide Holds, PutSet, GetSet, Slice, TextsAt, RecordsAt, Scaled, NulFree;
    var r := RecordOf(lay, set_, at, last);
    HoldsSlice(b, at, PutSet(lay, r));
    SetBack(lay, r);
    FewMessages(set_.messages, |set_.messages|);
  }

  lemma {:induction false} FewMessages(msgs: seq<Message>, m: nat)
    requires m <= |msgs|
    ensures m <= TextOff(msgs, m)
  {
    if m > 0 {
      FewMessages(msgs, m - 1);
    }
  }

  /** Inside the data that was read, the texts stand at their own offsets. */
  lemma TextsInData(b: seq<byte>, at: nat, msgs: seq<Message>, data: seq<byte>)
    requires TextsAt(b, at, msgs) && at + DataLen(msgs) <= |b| && data == Slice(b, at, DataLen(msgs))
    ensures TextsAt(data, 0, msgs)
  {
    hide TextOff;
    forall m | 0 <= m < |msgs| ensures TextAt(data, 0, msgs, m) {
      assert TextAt(b, at, msgs, m);
      TextOffMonotone(msgs, m + 1, |msgs|);
      TextOffStep(msgs, m);
      var p, d := TextOff(msgs, m), msgs[m].text + [0];
      if data != [] {
        assert data == b[at..at + DataLen(msgs)];
        SliceInside(b, at, DataLen(msgs), p, |d|);
      }
    }
  }

  lemma SliceInside(b: seq<byte>, at: nat, n: nat, p: nat, k: nat)
    requires p + k <= n && at + n <= |b|
    ensures b[at..at + n][p..p + k] == b[at + p..at + p + k]
  {
    var s, t := b[at..at + n][p..p + k], b[at + p..at + p + k];
    assert forall i :: 0 <= i < k ==> s[i] == t[i];
  }

  lemma DataFound(b: seq<byte>, lay: Layout, set_: MessageSet, at: nat, last: bool, r: SetRecord)
    requires SetAt(b, lay, set_, at, last) && SetFits(set_) && Describes(r, lay, set_, at, last)
    ensures DataOf(b, lay, r) == Messages(set_.messages)
  {
    hide Holds, PutSet, TextsAt, RecordsAt, TextOff, RecordOf, MessagesFrom;
    FewMessages(set_.messages, |set_.messages|);
    if r.dataLen != 0 {
      var data := Slice(b, r.dataOff, r.dataLen);
      TextsInData(b, r.dataOff, set_.messages, data);
      MessagesFound(b, lay, r.firstMsg, data, set_.messages, 0);
      ScaledZero(MsgSize(lay));
    }
  }

  lemma ScaledZero(n: nat)
    ensures Scaled(n, 0) == 0
  {
  }

  lemma DescribesValid(r: SetRecord, lay: Layout, set_: MessageSet, at: nat, last: bool)
    requires Describes(r, lay, set_, at, last)
    ensures r.invalid == 0 && r.setId == set_.id
    ensures last ==> r.nextSet == 0
    ensures !last ==> r.nextSet == at + BlockSize(lay, set_) > at && r.nextSet < OFF_LIMIT
  {
    hide Scaled;
  }

  /** The reader is at the start of set `k`. */
  ghost predicate At(b: seq<byte>, lay: Layout, sets: seq<MessageSet>, k: nat, start: nat) {
    Stored(b, lay, sets) && Fits(lay, sets) && k < |sets| && start == Start(lay, sets, k)
  }

  lemma AtFirst(b: seq<byte>, lay: Layout, sets: seq<MessageSet>)
    requires Stored(b, lay, sets) && Fits(lay, sets) && sets != []
    ensures At(b, lay, sets, 0, HeadSize(lay))
  {
    hide SetAt, SetFits;
  }

  lemma AtSet(b: seq<byte>, lay: Layout, sets: seq<MessageSet>, k: nat, start: nat)
    requires At(b, lay, sets, k, start)
    ensures k < |sets| && SetAt(b, lay, sets[k], start, k == |sets| - 1) && SetFits(sets[k])
    ensures start + BlockSize(lay, sets[k]) < OFF_LIMIT
    ensures k + 1 < |sets| ==> At(b, lay, sets, k + 1, start + BlockSize(lay, sets[k]))
  {
    hide SetAt, SetFits, Start, BlockSize;
    StartStep(lay, sets, k);
    StartMonotone(lay, sets, k + 1, |sets|);
  }

  /** From the start of any set on, the reader finds the sets that are left, each at a higher
      offset than the one before. */
  lemma {:induction false} SetsFound(b: seq<byte>, lay: Layout, sets: seq<MessageSet>, k: nat, start: nat, seen: set<nat>)
    requires At(b, lay, sets, k, start) && Below(seen, start) && Below(seen, |b|)
    ensures k < |sets| && SetsFrom(b, lay, start, seen) == Loaded(sets[k..])
    decreases |sets| - k
  {
    hide At, SetAt, SetFits, BlockSize, Describes, RecordFrom, DataOf, SetsFrom, GetSet, Slice;
    AtSet(b, lay, sets, k, start);
    var set_, last := sets[k], k == |sets| - 1;
    var got := Slice(b, start, SetSize(lay));
    NextSet(b, lay, set_, start, last, got);
    var r := GetSet(lay, got);
    DescribesValid(r, lay, set_, start, last);
    RecordStep(b, lay, start);
    DataFound(b, lay, set_, start, last, r);
    RecordIsInside(b, lay, start);
    SetsStep(b, lay, start, seen);
    assert sets[k..] == [set_] + sets[k + 1..];
    if !last {
      SetsFound(b, lay, sets, k + 1, start + BlockSize(lay, set_), seen + {start});
    }
  }

  /** What the reader makes of the header. */
  lemma HeadRead(b: seq<byte>, lay: Layout, sets: seq<MessageSet>, got: seq<byte>)
    requires Holds(b, 0, PutHead(lay, HeadOf(lay, sets))) && HeadSize(lay) < OFF_LIMIT
    requires got == Slice(b, 0, HeadSize(lay))
    ensures |got| == HeadSize(lay)
    ensures var h := GetHead(lay, got);
            h.magic == lay.magic && h.major == lay.major && Has(h.flags, lay.order) && h.firstSet == HeadSize(lay)
  {
    hide Holds, PutHead, GetHead, Slice;
    var h := HeadOf(lay, sets);
    HoldsSlice(b, 0, PutHead(lay, h));
    HeadBack(lay, h);
  }

  /** A file that holds a catalogue is read as that catalogue; one without sets is taken for corrupt
      when nothing stands behind the header. */
  lemma StoredIsRead(b: seq<byte>, lay: Layout, sets: seq<MessageSet>)
    ensures Stored(b, lay, sets) && Fits(lay, sets) && sets != [] ==> Reading(b, lay) == Loaded(sets)
    ensures Stored(b, lay, sets) && Fits(lay, sets) && sets == [] && |b| < HeadSize(lay) + SetSize(lay) ==>
              Reading(b, lay) == Corrupt
  {
    hide SetAt, Holds, PutHead, GetHead, Slice, Start, Has, SetFits, SetsFrom, RecordFrom, DataOf;
    if Stored(b, lay, sets) && Fits(lay, sets) {
      StartMonotone(lay, sets, 0, |sets|);
      HeadRead(b, lay, sets, Slice(b, 0, HeadSize(lay)));
      if sets != [] {
        AtFirst(b, lay, sets);
        SetsFound(b, lay, sets, 0, HeadSize(lay), {});
        assert sets[0..] == sets;
      } else if |b| < HeadSize(lay) + SetSize(lay) {
        SetsStep(b, lay, HeadSize(lay), {});
        RecordStep(b, lay, HeadSize(lay));
        SliceShort(b, HeadSize(lay), SetSize(lay));
      }
    }
  }

  lemma SliceShort(b: seq<byte>, p: nat, n: nat)
    requires p + n > |b|
    ensures |Slice(b, p, n)| != n || n == 0
  {
  }

  lemma NothingIsCorrupt(lay: Layout)
    ensures Reading([], lay) == Corrupt
  {
    hide SetsFrom;
  }

  /** Whatever is read has at least one set. */
  lemma NeverLoadsNothing(b: seq<byte>, lay: Layout)
    ensures Reading(b, lay) != Loaded([])
  {
    hide SetsFrom, GetHead, Slice, Has;
    var s := Slice(b, 0, HeadSize(lay));
    if |s| == HeadSize(lay) {
      ChainIsNotEmpty(b, lay, GetHead(lay, s).firstSet);
    }
  }

  lemma ChainIsNotEmpty(b: seq<byte>, lay: Layout, start: nat)
    ensures SetsFrom(b, lay, start, {}) != Loaded([])
  {
    hide SetsFrom, RecordFrom, DataOf;
    SetsStep(b, lay, start, {});
  }

  /** Writing over any old file and reading again rebuilds the same sets, ids and texts in order if and
      only if there is a set; without one, what is read are errors or sets that the old file held. */
  method RoundTrip(old_: seq<byte>, lay: Layout, sets: seq<MessageSet>) returns (r: Outcome)
    requires Fits(lay, sets)
    ensures r == Loaded(sets) <==> sets != []
    ensures sets == [] && |old_| < HeadSize(lay) + SetSize(lay) ==> r == Corrupt
  {
    hide Stored, Fits, Start, Reading;
    var f := new File(old_);
    WriteCat(f, lay, sets);
    StartStep(lay, sets, 0);
    f.Seek(0);
    StoredIsRead(f.bytes, lay, sets);
    NeverLoadsNothing(f.bytes, lay);
    r := ReadCat(f, lay);
  }
}
