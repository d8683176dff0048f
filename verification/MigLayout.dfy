/** The shape of a MIG message and the sizes migcom derives from it. */
module MigLayout {
  import opened Bytes

  /** One argument carried in the message body.
      - `Fixed(bytes)`: a value of known size (a scalar, a struct, a block of descriptors).
      - `Chars(max)`: a C string in an array of fixed size.
      - `Var(text, elem, max)`: an inline array of at most `max` elements of `elem` bytes;
        `text` marks a varying C string, whose count is preceded by an unused offset word.  A type
        that is only another name for a string has one element, the whole string (see MigTypes). */
  datatype Field =
    | Fixed(bytes: nat)
    | Chars(max: nat)
    | Var(text: bool, elem: nat, max: nat)
  {
    /** Bytes that are always present: itMinTypeSize. */
    function Head(): nat {
      match this
      case Fixed(bytes) => Align4(bytes)
      case Chars(max) => Align4(max)
      case Var(text, _, _) => if text then 8 else 4
    }

    /** itTypeSize + itPadSize of a variable argument. */
    function Area(): nat {
      match this
      case Fixed(_) => 0
      case Chars(_) => 0
      case Var(_, elem, max) => Align4(Scaled(elem, max))
    }

    /** What the argument occupies in the declared struct. */
    function InStruct(): nat {
      Head() + Area()
    }

    ghost predicate WellFormed() {
      (Var? ==> 1 <= elem && 1 <= max) && (Chars? ==> 1 <= max)
    }

    /** itNumber of a string: the length given to mig_strncpy and to the terminator check. */
    function Room(): nat {
      match this
      case Fixed(_) => 0
      case Chars(max) => max
      case Var(_, elem, max) => Scaled(elem, max)
    }
  }

  /** The argument's value on either side of the call.  A runaway string has no NUL before the end of
      the message; whoever reads it as a C string reads on behind the message. */
  datatype Value =
    | Block(data: seq<byte>)
    | Items(count: nat, data: seq<byte>)
    | Text(chars: seq<byte>)
    | Runaway(chars: seq<byte>)

  predicate Fits(f: Field, v: Value) {
    match f
    case Fixed(bytes) => v.Block? && |v.data| == bytes
    case Chars(_) => v.Text? && 0 !in v.chars
    case Var(text, elem, max) =>
      if text then v.Text? && 0 !in v.chars
      else v.Items? && v.count < WORD && |v.data| == Scaled(elem, v.count)
  }

  /** What a client refuses: counts of arrays are tested, counts of strings are not. */
  predicate TooLarge(f: Field, v: Value) {
    f.Var? && v.Items? && v.count > f.max
  }

  /** The bytes mig_strncpy stores: at most `len - 1` characters and a NUL. */
  function Strncpy(chars: seq<byte>, len: nat): (s: seq<byte>)
    requires 1 <= len
    ensures 1 <= |s| <= len && s[|s| - 1] == 0
  {
    (if |chars| < len then chars else chars[..len - 1]) + [0]
  }

  function Payload(f: Field, v: Value): seq<byte>
    requires f.WellFormed() && Fits(f, v)
  {
    match v
    case Block(data) => data
    case Items(_, data) => data
    case Text(chars) =>
      RoomForNul(f);
      Strncpy(chars, f.Room())
  }

  lemma RoomForNul(f: Field)
    requires f.WellFormed() && !f.Fixed?
    ensures f.Room() >= 1
  {
    if f.Var? {
      ScaledAtLeast(f.elem, f.max);
    }
  }

  function Count(f: Field, v: Value): nat
    requires f.WellFormed() && Fits(f, v)
  {
    match v
    case Block(_) => 0
    case Items(count, _) => count
    case Text(_) => |Payload(f, v)|
  }

  /** Bytes by which the argument makes the message larger than the minimum. */
  function Grown(f: Field, v: Value): nat
    requires f.WellFormed() && Fits(f, v)
  {
    if f.Var? then Align4(Scaled(f.elem, Count(f, v))) else 0
  }

  /** The count is beyond the maximum that the receiver allows. */
  predicate Oversized(f: Field, v: Value)
    requires f.WellFormed() && Fits(f, v)
  {
    f.Var? && Count(f, v) > f.max
  }

  /** An array is oversized if it has too many elements.  A string counts characters, so it is never
      oversized where these are the elements; where the whole string is the one element, it is
      oversized unless it is empty. */
  lemma OversizedExactly(f: Field, v: Value)
    requires f.WellFormed() && Fits(f, v) && f.Var?
    ensures TooLarge(f, v) <==> !f.text && Oversized(f, v)
    ensures f.text && f.elem == 1 ==> !Oversized(f, v)
    ensures f.text && f.elem > 1 && f.max == 1 ==> (Oversized(f, v) <==> v.chars != [])
  {
    hide Scaled;
    ScaledIsProduct(f.elem, f.max);
  }

  lemma FixedDoesNotGrow(f: Field, v: Value)
    requires f.WellFormed() && Fits(f, v) && !f.Var?
    ensures Grown(f, v) == 0
  {
  }

  lemma PayloadIsCounted(f: Field, v: Value)
    requires f.WellFormed() && Fits(f, v) && f.Var?
    ensures |Payload(f, v)| <= Scaled(f.elem, Count(f, v)) <= Grown(f, v)
    ensures v.Items? ==> |Payload(f, v)| == Scaled(f.elem, Count(f, v))
    ensures !Oversized(f, v) ==> Scaled(f.elem, Count(f, v)) <= Scaled(f.elem, f.max) && Grown(f, v) <= f.Area()
  {
    hide Scaled, Align4;
    ScaledAtLeast(f.elem, Count(f, v));
    if !Oversized(f, v) {
      ScaledMonotone(f.elem, Count(f, v), f.max);
      AlignMonotone(Scaled(f.elem, Count(f, v)), Scaled(f.elem, f.max));
    }
  }

  lemma {:induction false} AlignMonotone(a: nat, b: nat)
    requires a <= b
    ensures Align4(a) <= Align4(b)
  {
    if 4 < a {
      AlignMonotone(a - 4, b - 4);
    }
  }

  // ----- sums over a message -----

  ghost predicate WellFormed(fs: seq<Field>) {
    forall k :: 0 <= k < |fs| ==> fs[k].WellFormed()
  }

  ghost predicate FitAll(fs: seq<Field>, vs: seq<Value>) {
    |fs| == |vs| && forall k :: 0 <= k < |fs| ==> Fits(fs[k], vs[k])
  }

  ghost predicate InBounds(fs: seq<Field>, vs: seq<Value>)
    requires WellFormed(fs)
  {
    FitAll(fs, vs) && forall k :: 0 <= k < |fs| ==> !Oversized(fs[k], vs[k])
  }

  ghost predicate NoneTooLarge(fs: seq<Field>, vs: seq<Value>) {
    FitAll(fs, vs) && forall k :: 0 <= k < |fs| ==> !TooLarge(fs[k], vs[k])
  }

  /** `k` is the first field whose value is oversized. */
  ghost predicate FirstOversized(fs: seq<Field>, vs: seq<Value>, k: nat)
    requires WellFormed(fs) && FitAll(fs, vs)
  {
    && k < |fs| && Oversized(fs[k], vs[k])
    && forall i :: 0 <= i < k ==> !Oversized(fs[i], vs[i])
  }

  /** Declared offset of field `k` behind a header of `base` bytes. */
  function Offset(base: nat, fs: seq<Field>, k: nat): nat
    requires k <= |fs|
  {
    if k == 0 then base else Offset(base, fs, k - 1) + fs[k - 1].InStruct()
  }

  /** sizeof(Request) or sizeof(Reply). */
  function SizeOf(base: nat, fs: seq<Field>): nat {
    Offset(base, fs, |fs|)
  }

  /** Bytes of heads from field `k` on: what must still follow even if every array is empty. */
  function HeadsFrom(fs: seq<Field>, k: nat): nat
    requires k <= |fs|
    decreases |fs| - k
  {
    if k == |fs| then 0 else fs[k].Head() + HeadsFrom(fs, k + 1)
  }

  function AreasFrom(fs: seq<Field>, k: nat): nat
    requires k <= |fs|
    decreases |fs| - k
  {
    if k == |fs| then 0 else fs[k].Area() + AreasFrom(fs, k + 1)
  }

  /** The size with every array empty. */
  function MinSize(base: nat, fs: seq<Field>): nat {
    base + HeadsFrom(fs, 0)
  }

  /** argRequestPos (or argReplyPos): how many variable fields precede field `k`. */
  function VarsBefore(fs: seq<Field>, k: nat): nat
    requires k <= |fs|
  {
    if k == 0 then 0 else VarsBefore(fs, k - 1) + if fs[k - 1].Var? then 1 else 0
  }

  /** Where field `k` really starts, the arrays before it being sent tight. */
  function Position(base: nat, fs: seq<Field>, vs: seq<Value>, k: nat): nat
    requires WellFormed(fs) && FitAll(fs, vs) && k <= |fs|
  {
    if k == 0 then base
    else Position(base, fs, vs, k - 1) + fs[k - 1].Head() + Grown(fs[k - 1], vs[k - 1])
  }

  /** How far the struct pointer has moved when field `k` is reached. */
  function Shift(fs: seq<Field>, vs: seq<Value>, k: nat): int
    requires WellFormed(fs) && FitAll(fs, vs) && k <= |fs|
  {
    if k == 0 then 0
    else Shift(fs, vs, k - 1) + Grown(fs[k - 1], vs[k - 1]) - fs[k - 1].Area()
  }

  function GrownBefore(fs: seq<Field>, vs: seq<Value>, k: nat): nat
    requires WellFormed(fs) && FitAll(fs, vs) && k <= |fs|
  {
    if k == 0 then 0 else GrownBefore(fs, vs, k - 1) + Grown(fs[k - 1], vs[k - 1])
  }

  lemma {:induction false} ShiftedOffset(base: nat, fs: seq<Field>, vs: seq<Value>, k: nat)
    requires WellFormed(fs) && FitAll(fs, vs) && k <= |fs|
    ensures Shift(fs, vs, k) + Offset(base, fs, k) == Position(base, fs, vs, k)
    ensures Position(base, fs, vs, k) + HeadsFrom(fs, k) == MinSize(base, fs) + GrownBefore(fs, vs, k)
  {
    hide Grown, Field.Head, Field.Area;
    if k != 0 {
      ShiftedOffset(base, fs, vs, k - 1);
    }
  }

  lemma {:induction false} PositionWithinStruct(base: nat, fs: seq<Field>, vs: seq<Value>, k: nat)
    requires WellFormed(fs) && FitAll(fs, vs) && k <= |fs|
    requires forall i :: 0 <= i < k ==> !Oversized(fs[i], vs[i])
    ensures base <= Position(base, fs, vs, k) <= Offset(base, fs, k)
    ensures Shift(fs, vs, k) <= 0
  {
    if k != 0 {
      PositionWithinStruct(base, fs, vs, k - 1);
      if fs[k - 1].Var? {
        PayloadIsCounted(fs[k - 1], vs[k - 1]);
      }
    }
  }

  lemma {:induction false} OffsetMonotone(base: nat, fs: seq<Field>, i: nat, j: nat)
    requires i <= j <= |fs|
    ensures Offset(base, fs, i) <= Offset(base, fs, j)
    decreases j
  {
    if i < j {
      OffsetMonotone(base, fs, i, j - 1);
    }
  }

  lemma {:induction false} PositionMonotone(base: nat, fs: seq<Field>, vs: seq<Value>, i: nat, j: nat)
    requires WellFormed(fs) && FitAll(fs, vs) && i <= j <= |fs|
    ensures Position(base, fs, vs, i) <= Position(base, fs, vs, j)
    decreases j
  {
    hide Grown, Field.Head;
    if i < j {
      PositionMonotone(base, fs, vs, i, j - 1);
    }
  }

  lemma {:induction false} VarsMonotone(fs: seq<Field>, i: nat, j: nat)
    requires i <= j <= |fs|
    ensures VarsBefore(fs, i) <= VarsBefore(fs, j)
    decreases j
  {
    if i < j {
      VarsMonotone(fs, i, j - 1);
    }
  }

  lemma {:induction false} StructIsMinPlusAreas(base: nat, fs: seq<Field>, k: nat)
    requires k <= |fs|
    ensures Offset(base, fs, k) + HeadsFrom(fs, k) + AreasFrom(fs, k) == MinSize(base, fs) + AreasFrom(fs, 0)
  {
    if k != 0 {
      StructIsMinPlusAreas(base, fs, k - 1);
    }
  }

  lemma {:induction false} AreasShrink(fs: seq<Field>, k: nat)
    requires k <= |fs|
    ensures AreasFrom(fs, k) <= AreasFrom(fs, 0)
  {
    if k != 0 {
      AreasShrink(fs, k - 1);
    }
  }

  lemma {:induction false} NoAreasLeft(fs: seq<Field>, k: nat)
    requires k <= |fs| && VarsBefore(fs, k) == VarsBefore(fs, |fs|)
    ensures AreasFrom(fs, k) == 0
    decreases |fs| - k
  {
    if k < |fs| {
      VarsMonotone(fs, k + 1, |fs|);
      NoAreasLeft(fs, k + 1);
    }
  }

  // ----- migcom's own size computations -----

  /** machine_alignment: round the running size up to a word, then add. */
  function MachineAlignment(size: nat, more: nat): nat {
    (size + 3) / 4 * 4 + more
  }

  /** machine_padding. */
  function MachinePadding(bytes: nat): nat {
    if bytes % 4 != 0 then 4 - bytes % 4 else 0
  }

  lemma PaddingCompletesWord(bytes: nat)
    ensures bytes + MachinePadding(bytes) == Align4(bytes)
  {
    hide Align4;
    Align4IsRounding(bytes);
  }

  /** On word-aligned running sizes machine_alignment is plain addition. */
  lemma WordSized(f: Field, a: nat, b: nat)
    requires a % 4 == 0 && b % 4 == 0
    ensures MachineAlignment(a, f.Head()) == a + f.Head() && (a + f.Head()) % 4 == 0
    ensures MachineAlignment(b, f.Head()) == b + f.Head()
    ensures (b + f.Head() + f.Area()) % 4 == 0
    ensures f.Var? ==>
              var typeSize := Scaled(f.elem, f.max);
              MachineAlignment(b + f.Head(), typeSize) + MachinePadding(typeSize) == b + f.Head() + f.Area()
  {
    hide Scaled, Align4, MachinePadding, MachineAlignment, Field.Head, Field.Area;
    WordsInStruct(f);
    WordStays(a, f.Head());
    WordStays(b, f.Head());
    WordsAdd(a, f.Head());
    WordsAdd(b, f.Head());
    WordsAdd(b + f.Head(), f.Area());
    if f.Var? {
      PaddingCompletesWord(Scaled(f.elem, f.max));
      WordStays(b + f.Head(), Scaled(f.elem, f.max));
    }
  }

  /** Every part of the struct is made of whole words. */
  lemma WordsInStruct(f: Field)
    ensures f.Head() % 4 == 0 && f.Area() % 4 == 0
    ensures f.Var? ==> f.Area() == Align4(Scaled(f.elem, f.max))
  {
    hide Scaled, Align4;
    match f
    case Fixed(bytes) =>
      Align4IsRounding(bytes);
    case Chars(max) =>
      Align4IsRounding(max);
    case Var(_, elem, max) =>
      Align4IsRounding(Scaled(elem, max));
  }

  lemma WordsAdd(a: nat, b: nat)
    requires a % 4 == 0 && b % 4 == 0
    ensures (a + b) % 4 == 0
  {
  }

  lemma WordStays(a: nat, more: nat)
    requires a % 4 == 0
    ensures MachineAlignment(a, more) == a + more
  {
  }

  /** rtSizeDelta walks the arguments keeping two running sizes, from a header size that is the
      request's even when the reply is being sized.  The difference it prints turns the
      sizeof of the struct into the minimum size, whatever word-aligned start is used. */
  method SizeDelta(start: nat, base: nat, fs: seq<Field>) returns (delta: nat)
    requires start % 4 == 0
    ensures SizeOf(base, fs) - delta == MinSize(base, fs)
  {
    var minSize: nat, maxSize: nat := start, start;
    for k := 0 to |fs|
      invariant minSize <= maxSize && minSize % 4 == 0 && maxSize % 4 == 0
      invariant maxSize - minSize + AreasFrom(fs, k) == AreasFrom(fs, 0)
    {
      WordSized(fs[k], minSize, maxSize);
      minSize := MachineAlignment(minSize, fs[k].Head());
      maxSize := MachineAlignment(maxSize, fs[k].Head());
      if fs[k].Var? {
        var typeSize := Scaled(fs[k].elem, fs[k].max);
        maxSize := MachineAlignment(maxSize, typeSize);
        maxSize := maxSize + MachinePadding(typeSize);
      }
    }
    delta := maxSize - minSize;
    StructIsMinPlusAreas(base, fs, |fs|);
  }

  /** itCalculateSizeInfo: the bytes of `number` items of `bits` bits each. */
  function TypeSize(number: nat, bits: nat): nat {
    (number * bits + 7) / 8
  }

  /** The client copies `count * TypeSize(elem)` bytes into an area of TypeSize(array) bytes.
      The two agree at the maximum count exactly when the bits lost by rounding one element up
      to whole bytes add up to less than a byte over the whole array. */
  lemma ArrayBytesAreElementBytes(number: nat, bits: nat)
    ensures TypeSize(number, bits) == number * TypeSize(1, bits) <==> number * ((8 - bits % 8) % 8) < 8
  {
    var q, r := bits / 8, bits % 8;
    var whole := TypeSize(1, bits);
    var slack := (8 - r) % 8;
    assert 8 * whole == bits + slack;
    assert 8 * (number * whole) == number * bits + number * slack by {
      assert number * (8 * whole) == number * (bits + slack);
    }
    var x, s := number * bits, number * slack;
    var w := number * whole;
    assert 8 * w == x + s;
    assert (x + 7) / 8 == w <==> s < 8;
  }
}
