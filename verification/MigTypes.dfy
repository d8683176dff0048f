/** Type declarations of migcom: the sizes it computes, and the message fields they stand for. */
module MigTypes {
  import opened Bytes
  import opened Options
  import opened MigLayout
  import opened MigMessage
  import opened MigRequest

  /** What a symbolic IPC type is, as far as sizes depend on it. */
  datatype Kind = Data | StringC | Port

  /** A type-spec.  `Named` is the name of a declared type, `VarArray` with number 0 an unbounded array. */
  datatype Spec =
    | Simple(bits: u32, kind: Kind)
    | CString(count: u32, varying: bool)
    | Named(of: Spec)
    | VarArray(number: u32, of: Spec)
    | Array(number: u32, of: Spec)
    | Struct(number: u32, of: Spec)
    | Pointer(of: Spec)

  // ----- the values of ipc_type_t -----

  /** What the emitter asks of a type's element. */
  datatype Element = Element(number: u32, typeSize: u32)

  /** The fields of an ipc_type_t that sizes depend on. */
  datatype Sizes = Sizes(size: u32, number: u32, kpds: u32, inLine: bool, migInLine: bool, portType: bool,
                         text: bool, varArray: bool, typeSize: u32, padSize: u32, minTypeSize: u32,
                         element: Option<Element>)

  const Prototype: Sizes := Sizes(0, 1, 0, true, false, false, false, false, 0, 0, 0, None)

  /** A product of u_ints. */
  function Product(a: u32, b: u32): u32 {
    a * b % WORD
  }

  /** itCalculateSizeInfo. */
  function Calculated(t: Sizes): (r: Sizes)
    ensures r == t.(typeSize := r.typeSize, padSize := r.padSize, minTypeSize := r.minTypeSize)
  {
    if t.inLine && !t.portType then
      var bytes := Add32(Product(t.number, t.size), 7) / 8;
      var padding := MachinePadding(bytes);
      t.(typeSize := bytes, padSize := padding,
         minTypeSize := if !t.varArray then bytes + padding else if t.text then 8 else 4)
    else
      var bytes := if t.kpds > 1 then Product(t.kpds, 12) else 12;
      t.(typeSize := bytes, padSize := 0, minTypeSize := bytes)
  }

  /** itCopyType. */
  function Copied(t: Sizes): Sizes {
    t.(element := Some(Element(t.number, t.typeSize)))
  }

  /** itShortDecl. */
  function ShortSizes(bits: u32, kind: Kind): Option<Sizes> {
    if bits == 0 then None
    else
      Some(Calculated(Prototype.(size := bits, text := kind.StringC?, portType := kind.Port?,
                                 kpds := if kind.Port? then 1 else 0)))
  }

  /** itVarArrayDecl. */
  function VarArraySizes(number: u32, from: Sizes): Option<Sizes> {
    var t := Copied(from).(text := false, varArray := true);
    if !from.inLine then
      if from.kpds != 1 || number == 0 then None else Some(Calculated(t.(kpds := number, number := 1)))
    else if from.varArray then None
    else Some(Calculated(Bounded(number, t)))
  }

  function Bounded(number: u32, t: Sizes): Sizes {
    if number == 0 then t.(number := 0, migInLine := true, inLine := false, kpds := 1)
    else t.(number := Product(t.number, number), kpds := if t.portType then Product(t.kpds, number) else t.kpds)
  }

  /** itArrayDecl. */
  function ArraySizes(number: u32, from: Sizes): Option<Sizes> {
    var t := Copied(from).(text := false);
    if !from.inLine then
      if from.kpds != 1 then None else Some(Calculated(t.(kpds := number, number := 1, varArray := false)))
    else if from.varArray then None
    else
      Some(Calculated(t.(number := Product(from.number, number),
                         kpds := if from.portType then Product(from.kpds, number) else from.kpds)))
  }

  /** itStructDecl. */
  function StructSizes(number: u32, from: Sizes): Option<Sizes> {
    if !from.inLine || from.varArray then None
    else Some(Calculated(Copied(from).(text := false, number := Product(from.number, number))))
  }

  /** itPtrDecl. */
  function PointerSizes(t: Sizes): Option<Sizes> {
    if !t.inLine && !t.migInLine then None
    else Some(Calculated(t.(inLine := false, text := false, migInLine := false, kpds := 1)))
  }

  function StringSizes(count: u32, varying: bool): Sizes {
    Calculated(Copied(ShortSizes(8, StringC).value).(number := count, varArray := varying, text := true))
  }

  /** What migcom makes of a type-spec; None where it reports an error. */
  function Declared(spec: Spec): Option<Sizes> {
    match spec
    case Simple(bits, kind) => ShortSizes(bits, kind)
    case CString(count, varying) => Some(StringSizes(count, varying))
    case Named(of) => if Declared(of).Some? then Some(Copied(Declared(of).value)) else None
    case VarArray(number, of) => if Declared(of).Some? then VarArraySizes(number, Declared(of).value) else None
    case Array(number, of) => if Declared(of).Some? then ArraySizes(number, Declared(of).value) else None
    case Struct(number, of) => if Declared(of).Some? then StructSizes(number, Declared(of).value) else None
    case Pointer(of) => if Declared(of).Some? then PointerSizes(Declared(of).value) else None
  }

  // ----- the objects -----

  /** An ipc_type_t. */
  class IpcType {
    var size: u32
    var number: u32
    var kpds: u32
    var inLine: bool
    var migInLine: bool
    var portType: bool
    var text: bool
    var varArray: bool
    var typeSize: u32
    var padSize: u32
    var minTypeSize: u32
    var element: IpcType?

    function Value(): Sizes
      reads this, element
    {
      Sizes(size, number, kpds, inLine, migInLine, portType, text, varArray, typeSize, padSize, minTypeSize,
            if element == null then None else Some(Element(element.number, element.typeSize)))
    }

    /** itAlloc. */
    constructor ()
      ensures Value() == Prototype && element == null
    {
      size, number, kpds := 0, 1, 0;
      inLine, migInLine, portType, text, varArray := true, false, false, false, false;
      typeSize, padSize, minTypeSize := 0, 0, 0;
      element := null;
    }

    method CalculateSizeInfo()
      requires element != this
      modifies this
      ensures Value() == Calculated(old(Value())) && element == old(element)
    {
      if inLine && !portType {
        var bytes := Add32(Product(number, size), 7) / 8;
        var padding := MachinePadding(bytes);
        typeSize, padSize := bytes, padding;
        if varArray {
          minTypeSize := 4;
          if text {
            minTypeSize := minTypeSize + 4;
          }
        } else {
          minTypeSize := bytes + padding;
        }
      } else {
        var bytes := 12;
        if kpds > 1 {
          bytes := Product(kpds, 12);
        }
        typeSize, padSize, minTypeSize := bytes, 0, bytes;
      }
    }

    /** itCopyType, with itResetType, which touches no size. */
    constructor Copy(from: IpcType)
      ensures Value() == Copied(from.Value()) && element == from
    {
      size, number, kpds := from.size, from.number, from.kpds;
      inLine, migInLine, portType := from.inLine, from.migInLine, from.portType;
      text, varArray := from.text, from.varArray;
      typeSize, padSize, minTypeSize := from.typeSize, from.padSize, from.minTypeSize;
      element := from;
    }

    /** The part of itVarArrayDecl for arrays of what is sent in line; without a bound they are not. */
    method Bound(n: u32)
      requires element != this
      modifies this
      ensures element == old(element)
      ensures Value() == Bounded(n, old(Value()))
    {
      hide Product;
      if n != 0 {
        number := Product(number, n);
        if portType {
          kpds := Product(kpds, n);
        }
      } else {
        number, migInLine, inLine, kpds := 0, true, false, 1;
      }
    }

    /** itPtrDecl works on the type it is given. */
    method Point() returns (ok: bool)
      requires element != this
      modifies this
      ensures ok <==> PointerSizes(old(Value())).Some?
      ensures ok ==> Value() == PointerSizes(old(Value())).value && element == old(element)
    {
      if !inLine && !migInLine {
        return false;
      }
      inLine, text, migInLine, kpds := false, false, false, 1;
      CalculateSizeInfo();
      ok := true;
    }
  }

  method ShortDecl(bits: u32, kind: Kind) returns (it: IpcType?)
    ensures it != null <==> ShortSizes(bits, kind).Some?
    ensures it != null ==> fresh(it) && it.element == null && it.Value() == ShortSizes(bits, kind).value
  {
    if bits == 0 {
      return null;
    }
    it := new IpcType();
    it.size := bits;
    if kind.StringC? {
      it.text := true;
    }
    if kind.Port? {
      it.portType, it.kpds := true, 1;
    }
    it.CalculateSizeInfo();
  }

  /** itPrevDecl, for a name that stands for `from`. */
  method PrevDecl(from: IpcType) returns (it: IpcType)
    ensures fresh(it) && it.element == from && it.Value() == Copied(from.Value())
  {
    it := new IpcType.Copy(from);
  }

  method VarArrayDecl(number: u32, from: IpcType) returns (it: IpcType?)
    ensures it != null <==> VarArraySizes(number, from.Value()).Some?
    ensures it != null ==> fresh(it) && it.element == from && it.Value() == VarArraySizes(number, from.Value()).value
  {
    hide Calculated, Product;
    var made := new IpcType.Copy(from);
    if !made.inLine {
      if made.kpds != 1 || number == 0 {
        return null;
      }
      made.kpds, made.number := number, 1;
    } else if made.varArray {
      return null;
    } else {
      made.Bound(number);
    }
    made.varArray, made.text := true, false;
    made.CalculateSizeInfo();
    it := made;
  }

  method ArrayDecl(number: u32, from: IpcType) returns (it: IpcType?)
    ensures it != null <==> ArraySizes(number, from.Value()).Some?
    ensures it != null ==> fresh(it) && it.element == from && it.Value() == ArraySizes(number, from.Value()).value
  {
    hide Calculated, Product;
    var made := new IpcType.Copy(from);
    if !made.inLine {
      if made.kpds != 1 {
        return null;
      }
      made.kpds, made.number, made.varArray := number, 1, false;
    } else if made.varArray {
      return null;
    } else {
      made.number := Product(made.number, number);
      if made.portType {
        made.kpds := Product(made.kpds, number);
      }
    }
    made.text := false;
    made.CalculateSizeInfo();
    it := made;
  }

  method StructDecl(number: u32, from: IpcType) returns (it: IpcType?)
    ensures it != null <==> StructSizes(number, from.Value()).Some?
    ensures it != null ==> fresh(it) && it.element == from && it.Value() == StructSizes(number, from.Value()).value
  {
    if !from.inLine || from.varArray {
      return null;
    }
    it := new IpcType.Copy(from);
    it.number, it.text := Product(it.number, number), false;
    it.CalculateSizeInfo();
  }

  method CStringDecl(count: u32, varying: bool) returns (it: IpcType)
    ensures fresh(it) && it.element != it && it.Value() == StringSizes(count, varying)
  {
    var letter := ShortDecl(8, StringC);
    it := new IpcType.Copy(letter);
    it.number, it.varArray, it.text := count, varying, true;
    it.CalculateSizeInfo();
  }

  /** The parser's actions for a type-spec. */
  method Elaborate(spec: Spec) returns (it: IpcType?)
    ensures it != null <==> Declared(spec).Some?
    ensures it != null ==> fresh(it) && it.element != it && it.Value() == Declared(spec).value
  {
    match spec {
      case Simple(bits, kind) =>
        it := ShortDecl(bits, kind);
      case CString(count, varying) =>
        it := CStringDecl(count, varying);
      case Named(of) =>
        it := Elaborate(of);
        if it != null {
          it := PrevDecl(it);
        }
      case VarArray(number, of) =>
        it := Elaborate(of);
        if it != null {
          it := VarArrayDecl(number, it);
        }
      case Array(number, of) =>
        it := Elaborate(of);
        if it != null {
          it := ArrayDecl(number, it);
        }
      case Struct(number, of) =>
        it := Elaborate(of);
        if it != null {
          it := StructDecl(number, it);
        }
      case Pointer(of) =>
        it := Elaborate(of);
        if it != null {
          var ok := it.Point();
          if !ok {
            it := null;
          }
        }
    }
  }

  // ----- what a declaration means -----

  /** Carried in the message body, neither a port nor out of line. */
  predicate InBody(spec: Spec) {
    match spec
    case Simple(_, kind) => !kind.Port?
    case CString(_, _) => true
    case Named(of) => InBody(of)
    case VarArray(number, of) => number != 0 && InBody(of)
    case Array(_, of) => InBody(of)
    case Struct(_, of) => InBody(of)
    case Pointer(_) => false
  }

  function Items(spec: Spec): nat {
    match spec
    case Simple(_, _) => 1
    case CString(count, _) => count
    case Named(of) => Items(of)
    case VarArray(number, of) => Items(of) * number
    case Array(number, of) => Items(of) * number
    case Struct(number, of) => Items(of) * number
    case Pointer(of) => Items(of)
  }

  function ItemBits(spec: Spec): u32 {
    match spec
    case Simple(bits, _) => bits
    case CString(_, _) => 8
    case Named(of) => ItemBits(of)
    case VarArray(_, of) => ItemBits(of)
    case Array(_, of) => ItemBits(of)
    case Struct(_, of) => ItemBits(of)
    case Pointer(of) => ItemBits(of)
  }

  predicate Varying(spec: Spec) {
    match spec
    case CString(_, varying) => varying
    case Named(of) => Varying(of)
    case VarArray(_, _) => true
    case _ => false
  }

  predicate IsString(spec: Spec) {
    match spec
    case Simple(_, kind) => kind.StringC?
    case CString(_, _) => true
    case Named(of) => IsString(of)
    case _ => false
  }

  /** Bits of a value, at most. */
  function Width(spec: Spec): nat {
    Items(spec) * ItemBits(spec)
  }

  /** The field that values of the type are sent in.  A name for a varying type stands for at most one
      element, which is the whole array or string: itCopyType makes the old type the element. */
  function Meaning(spec: Spec): Field {
    match spec
    case Simple(bits, kind) => if kind.StringC? then Chars(1) else Fixed(TypeSize(1, bits))
    case CString(count, varying) => if varying then Var(true, 1, count) else Chars(count)
    case Named(of) =>
      if Varying(of) then Var(IsString(of), TypeSize(Items(of), ItemBits(of)), 1) else Meaning(of)
    case VarArray(number, of) => Var(false, TypeSize(Items(of), ItemBits(of)), number)
    case Array(_, _) => Fixed(TypeSize(Items(spec), ItemBits(spec)))
    case Struct(_, _) => Fixed(TypeSize(Items(spec), ItemBits(spec)))
    case Pointer(_) => Fixed(12)
  }

  /** The constants that the emitter prints for a type are those of a field: the sizes of data and
      padding, the part of the minimum size, and for an array the size of an element, the limit
      `itNumber/btype->itNumber` and, for strings, the length `itNumber`. */
  predicate Prints(t: Sizes, f: Field) {
    match f
    case Fixed(bytes) =>
      !t.varArray && !t.text && t.typeSize == bytes && t.padSize == MachinePadding(bytes) && t.minTypeSize == f.Head()
    case Chars(max) =>
      && !t.varArray && t.text && t.typeSize == max && t.number == max
      && t.padSize == MachinePadding(max) && t.minTypeSize == f.Head()
    case Var(text, elem, max) =>
      && t.varArray && t.text == text && t.element.Some? && t.element.value.number != 0
      && t.element.value.typeSize == elem && t.number / t.element.value.number == max
      && t.typeSize == Scaled(elem, max) && t.padSize == MachinePadding(Scaled(elem, max)) && t.minTypeSize == f.Head()
      && (text ==> t.number == f.Room())
  }

  /** When all is well: no 32-bit product wraps, no array or string is empty, and rounding each element
      up to bytes adds less than a byte over a whole array. */
  predicate Sound(spec: Spec) {
    && Width(spec) + 7 < WORD
    && (Varying(spec) || IsString(spec) ==> Items(spec) > 0)
    && match spec
       case Simple(bits, kind) => kind.StringC? ==> bits <= 8
       case Named(of) => !Varying(of) ==> Sound(of)
       case VarArray(number, of) => number * ((8 - Width(of) % 8) % 8) < 8
       case _ => true
  }

  // ----- from declarations to fields -----

  /** The sizes of every accepted type fit its other fields, a copied type's too. */
  lemma {:induction false} SizesStayValid(spec: Spec)
    requires Declared(spec).Some?
    ensures Calculated(Declared(spec).value) == Declared(spec).value
  {
    hide Product;
    match spec
    case Simple(_, _) =>
    case CString(_, _) =>
    case Named(of) =>
      SizesStayValid(of);
    case VarArray(_, _) =>
    case Array(_, _) =>
    case Struct(_, _) =>
    case Pointer(_) =>
  }

  /** What the fields of a type carried in the body are; itNumber is the number of items modulo 2^32. */
  lemma {:induction false} DeclaredFields(spec: Spec)
    requires InBody(spec) && Declared(spec).Some?
    ensures var t := Declared(spec).value;
            && t.inLine && !t.portType && t.size == ItemBits(spec) > 0
            && t.text == IsString(spec) && t.varArray == Varying(spec)
            && t.number == Items(spec) % WORD
  {
    hide Product, Calculated;
    match spec
    case Simple(_, _) =>
    case CString(_, _) =>
    case Named(of) =>
      DeclaredFields(of);
    case VarArray(number, of) =>
      DeclaredFields(of);
      ProductWraps(Items(of), number);
    case Array(number, of) =>
      DeclaredFields(of);
      ProductWraps(Items(of), number);
    case Struct(number, of) =>
      DeclaredFields(of);
      ProductWraps(Items(of), number);
  }

  lemma ProductWraps(a: nat, b: u32)
    ensures Product(a % WORD, b) == a * b % WORD
  {
    var q := a / WORD;
    assert a * b == (a % WORD) * b + WORD * (q * b) by {
      Distributes(a % WORD, WORD * q, b);
    }
    Multiples((a % WORD) * b, q * b);
  }

  lemma Distributes(x: nat, y: nat, b: nat)
    ensures (x + y) * b == x * b + y * b
  {
  }

  lemma Multiples(x: nat, k: nat)
    ensures (x + WORD * k) % WORD == x % WORD
  {
  }

  /** The size migcom computes: right if and only if the product of 32-bit numbers does not wrap. */
  lemma DeclaredSize(spec: Spec)
    requires InBody(spec) && Declared(spec).Some?
    ensures var t := Declared(spec).value;
            && t.padSize == MachinePadding(t.typeSize) && t.typeSize < 0x2000_0000
            && t.minTypeSize == (if !t.varArray then t.typeSize + t.padSize else if t.text then 8 else 4)
            && (t.typeSize == TypeSize(Items(spec), ItemBits(spec)) <==> Width(spec) + 7 < WORD)
  {
    hide Product, MachinePadding, Items, ItemBits, Declared, InBody;
    var t, x := Declared(spec).value, Width(spec);
    SizesStayValid(spec);
    DeclaredFields(spec);
    ProductWraps(Items(spec), t.size);
    Multiples(x % WORD + 7, x / WORD);
    assert t.typeSize == (x + 7) % WORD / 8;
    WrappedSize(x + 7);
  }

  lemma WrappedSize(n: nat)
    ensures n % WORD / 8 == n / 8 <==> n < WORD
  {
  }

  lemma FixedPrints(t: Sizes, bytes: nat)
    requires !t.varArray && t.padSize == MachinePadding(t.typeSize) && t.minTypeSize == t.typeSize + t.padSize
    ensures !t.text ==> (Prints(t, Fixed(bytes)) <==> t.typeSize == bytes)
    ensures t.text ==> (Prints(t, Chars(bytes)) <==> t.typeSize == bytes == t.number)
  {
    hide MachinePadding, Align4;
    PaddingCompletesWord(t.typeSize);
  }

  lemma SmallTypeSize(number: nat, bits: nat)
    ensures TypeSize(number, bits) < 0x2000_0000 <==> number * bits + 7 < WORD
  {
    var x := number * bits;
  }

  /** An array whose constants are right: its size in bytes is that of its elements. */
  lemma VarArraySound(number: u32, of: Spec)
    requires InBody(VarArray(number, of)) && Declared(VarArray(number, of)).Some?
    requires var spec := VarArray(number, of); Prints(Declared(spec).value, Meaning(spec)) && Meaning(spec).WellFormed()
    ensures Sound(VarArray(number, of))
  {
    hide MachinePadding, Align4, Product, Calculated, TypeSize, Scaled;
    var spec := VarArray(number, of);
    var elem := TypeSize(Items(of), ItemBits(of));
    DeclaredFields(spec);
    DeclaredSize(spec);
    DeclaredFields(of);
    ScaledIsProduct(elem, number);
    ElementBytes(Items(of), ItemBits(of), number);
    SmallTypeSize(Items(spec), ItemBits(spec));
    assert Items(spec) > 0 by {
      assert Declared(spec).value.element == Some(Element(Declared(of).value.number, Declared(of).value.typeSize));
      AtLeast(Items(of), number);
    }
  }

  lemma SoundVarArray(number: u32, of: Spec)
    requires InBody(VarArray(number, of)) && Declared(VarArray(number, of)).Some? && Sound(VarArray(number, of))
    ensures var spec := VarArray(number, of); Prints(Declared(spec).value, Meaning(spec)) && Meaning(spec).WellFormed()
  {
    hide MachinePadding, Product, Calculated, TypeSize, Scaled, Prints, Items, ItemBits, Width;
    var spec := VarArray(number, of);
    var t, e := Declared(spec).value, Declared(of).value;
    DeclaredFields(spec);
    DeclaredSize(spec);
    DeclaredFields(of);
    DeclaredSize(of);
    SoundNumbers(number, of);
    ArrayPrints(t, Element(e.number, e.typeSize), TypeSize(Items(of), ItemBits(of)), number);
  }

  /** In a sound declaration of an array nothing wraps, and its bytes are those of its elements. */
  lemma SoundNumbers(number: u32, of: Spec)
    requires Sound(VarArray(number, of)) && ItemBits(of) > 0
    ensures var spec := VarArray(number, of);
            && Width(of) + 7 < WORD && 0 < Items(of) < WORD && Items(spec) < WORD && Items(spec) / Items(of) == number
            && 0 < TypeSize(Items(of), ItemBits(of))
            && TypeSize(Items(spec), ItemBits(spec)) == TypeSize(Items(of), ItemBits(of)) * number
  {
    hide TypeSize;
    NothingWraps(Items(of), ItemBits(of), number);
    ElementBytes(Items(of), ItemBits(of), number);
  }

  lemma ArrayPrints(t: Sizes, e: Element, elem: nat, max: nat)
    requires t.varArray && !t.text && t.element == Some(e) && t.padSize == MachinePadding(t.typeSize) && t.minTypeSize == 4
    requires e.number != 0 && e.typeSize == elem && t.number / e.number == max && t.typeSize == elem * max
    ensures Prints(t, Var(false, elem, max))
  {
    hide MachinePadding;
    ScaledIsProduct(elem, max);
  }

  lemma NothingWraps(items: nat, bits: nat, number: nat)
    requires bits > 0 && items * number > 0 && items * number * bits + 7 < WORD
    ensures items * bits + 7 < WORD && 0 < items < WORD && items * number < WORD
    ensures items * number / items == number && TypeSize(items, bits) > 0
  {
    hide TypeSize;
    AtLeast(items, number);
    AtLeast(items, bits);
    AtLeast(items * number, bits);
    Regroup(items, bits, number);
    AtLeast(items * bits, number);
    Counted(items, number);
    WholeBytes(items, bits);
  }

  lemma AtLeast(a: nat, b: nat)
    requires b >= 1
    ensures a * b >= a && (a * b > 0 <==> a > 0)
  {
    assert a * (b - 1) >= 0;
  }

  lemma Counted(items: nat, number: nat)
    requires items > 0
    ensures items * number / items == number
  {
    var q := items * number / items;
    assert items * (number - q) < items && items * (q - number) <= 0;
    if number > q {
      AtLeast(items, number - q);
    } else if number < q {
      AtLeast(items, q - number);
    }
  }

  lemma WholeBytes(number: nat, bits: nat)
    requires number * bits > 0
    ensures TypeSize(number, bits) > 0
  {
    var x := number * bits;
  }

  lemma Regroup(items: nat, bits: nat, number: nat)
    ensures items * number * bits == number * (items * bits)
  {
  }

  lemma ElementBytes(items: nat, bits: nat, number: nat)
    ensures TypeSize(items * number, bits) == TypeSize(items, bits) * number <==>
            number * ((8 - items * bits % 8) % 8) < 8
    ensures TypeSize(items * number, bits) <= TypeSize(items, bits) * number
  {
    var x := items * bits;
    var n, y := number, items * number * bits;
    Regroup(items, bits, number);
    ArrayBytesAreElementBytes(n, x);
    assert TypeSize(items, bits) == TypeSize(1, x) == (x + 7) / 8;
    BytesCover(n, x);
  }

  lemma BytesCover(number: nat, bits: nat)
    ensures (number * bits + 7) / 8 <= (bits + 7) / 8 * number
  {
    var b := (bits + 7) / 8;
    assert number * bits <= number * (8 * b);
    var x, y := number * bits, number * b;
    assert number * (8 * b) == 8 * y;
  }

  /** Only c_string declares varying strings. */
  lemma {:induction false} VaryingString(spec: Spec)
    requires Varying(spec) && IsString(spec)
    ensures ItemBits(spec) == 8 && Items(spec) < WORD
  {
    if spec.Named? {
      VaryingString(spec.of);
    }
  }

  lemma ByteStrings(n: nat)
    ensures TypeSize(n, 8) == n
  {
  }

  /** Another name for a varying type. */
  lemma NamedVaryingPrints(of: Spec)
    requires InBody(of) && Declared(of).Some? && Varying(of)
    ensures var spec := Named(of);
            Prints(Declared(spec).value, Meaning(spec)) && Meaning(spec).WellFormed() <==> Sound(spec)
  {
    hide MachinePadding, Align4, Product, Calculated, TypeSize, Scaled;
    var spec, bytes := Named(of), TypeSize(Items(of), ItemBits(of));
    DeclaredFields(spec);
    DeclaredSize(spec);
    ScaledIsProduct(bytes, 1);
    assert Declared(spec).value.element == Some(Element(Declared(of).value.number, Declared(of).value.typeSize));
    if IsString(of) {
      VaryingString(of);
      ByteStrings(Items(of));
    }
    if Sound(spec) {
      AtLeast(Items(of), ItemBits(of));
      WholeBytes(Items(of), ItemBits(of));
    }
    if bytes >= 1 && Items(of) == 0 {
      NoBytes(ItemBits(of));
    }
  }

  lemma NoBytes(bits: nat)
    ensures TypeSize(0, bits) == 0
  {
  }

  lemma CStringPrints(count: u32, varying: bool)
    ensures var spec := CString(count, varying);
            Prints(Declared(spec).value, Meaning(spec)) && Meaning(spec).WellFormed() <==> Sound(spec)
  {
    hide MachinePadding, Align4, TypeSize, Scaled;
    var spec := CString(count, varying);
    var t := Declared(spec).value;
    DeclaredFields(spec);
    DeclaredSize(spec);
    ByteStrings(count);
    ScaledIsProduct(1, count);
    if !varying {
      FixedPrints(t, count);
    }
  }

  /** The constants that are emitted for a declared type are those of the field it means, and the
      field is well formed, if and only if the declaration is sound. */
  lemma {:induction false} PrintsExactly(spec: Spec)
    requires InBody(spec) && Declared(spec).Some?
    ensures Prints(Declared(spec).value, Meaning(spec)) && Meaning(spec).WellFormed() <==> Sound(spec)
  {
    hide MachinePadding, Align4, Product, Calculated, TypeSize, Scaled, Prints;
    match spec
    case Simple(bits, kind) =>
      PlainPrints(spec);
    case CString(count, varying) =>
      CStringPrints(count, varying);
    case Named(of) =>
      if Varying(of) {
        NamedVaryingPrints(of);
      } else {
        PrintsExactly(of);
        assert Prints(Declared(spec).value, Meaning(spec)) == Prints(Declared(of).value, Meaning(of)) by { NameOfFixed(of); }
      }
    case VarArray(number, of) =>
      if Sound(spec) {
        SoundVarArray(number, of);
      } else if Prints(Declared(spec).value, Meaning(spec)) && Meaning(spec).WellFormed() {
        VarArraySound(number, of);
      }
    case Array(_, _) =>
      PlainPrints(spec);
    case Struct(_, _) =>
      PlainPrints(spec);
  }

  lemma NameOfFixed(of: Spec)
    requires Declared(of).Some? && !Varying(of)
    ensures Prints(Declared(Named(of)).value, Meaning(of)) == Prints(Declared(of).value, Meaning(of))
    ensures Sound(of) ==> Sound(Named(of))
  {
  }

  lemma PlainPrints(spec: Spec)
    requires InBody(spec) && Declared(spec).Some? && (spec.Simple? || spec.Array? || spec.Struct?)
    ensures Prints(Declared(spec).value, Meaning(spec)) && Meaning(spec).WellFormed() <==> Sound(spec)
  {
    hide MachinePadding, Align4, Product, Calculated, Scaled, Prints;
    DeclaredFields(spec);
    DeclaredSize(spec);
    FixedPrints(Declared(spec).value, if IsString(spec) then 1 else TypeSize(Items(spec), ItemBits(spec)));
    if IsString(spec) {
      LetterSize(spec.bits);
    }
  }

  /** A single character has one byte, and no more than eight bits. */
  lemma LetterSize(bits: u32)
    requires bits > 0
    ensures ShortSizes(bits, StringC).value.typeSize == 1 <==> bits <= 8
  {
    hide MachinePadding;
  }

  // ----- descriptors -----

  /** How many descriptors a port or what is out of line takes. */
  function Descriptors(spec: Spec): nat {
    match spec
    case Simple(_, kind) => if kind.Port? then 1 else 0
    case CString(_, _) => 0
    case Named(of) => Descriptors(of)
    case VarArray(number, of) => if number == 0 then 1 else Descriptors(of) * number
    case Array(number, of) => Descriptors(of) * number
    case Struct(_, of) => Descriptors(of)
    case Pointer(_) => 1
  }

  lemma {:induction false} DeclaredDescriptors(spec: Spec)
    requires Declared(spec).Some?
    ensures var t := Declared(spec).value;
            && (t.inLine && !t.portType <==> InBody(spec))
            && (!InBody(spec) ==> t.kpds == Descriptors(spec) % WORD)
            && (InBody(spec) ==> t.kpds == 0 == Descriptors(spec))
  {
    hide Product, Calculated;
    match spec
    case Simple(_, _) =>
    case CString(_, _) =>
    case Named(of) =>
      DeclaredDescriptors(of);
    case VarArray(number, of) =>
      DeclaredDescriptors(of);
      MoreDescriptors(of, number);
    case Array(number, of) =>
      DeclaredDescriptors(of);
      MoreDescriptors(of, number);
    case Struct(number, of) =>
      DeclaredDescriptors(of);
    case Pointer(_) =>
  }

  lemma MoreDescriptors(of: Spec, number: u32)
    ensures Product(Descriptors(of) % WORD, number) == Descriptors(of) * number % WORD
    ensures Descriptors(of) % WORD == 1 ==> Descriptors(of) * number % WORD == number
    ensures Descriptors(of) == 0 ==> Descriptors(of) * number == 0 == Product(0, number)
  {
    hide Descriptors;
    ProductWraps(Descriptors(of), number);
  }

  /** A port or what is out of line takes twelve bytes for every descriptor, at least one, and no padding,
      if and only if that many bytes do not wrap. */
  lemma DescriptorBytes(spec: Spec)
    requires Declared(spec).Some? && !InBody(spec)
    ensures var t, n := Declared(spec).value, if Descriptors(spec) > 1 then Descriptors(spec) else 1;
            && t.padSize == 0 && t.minTypeSize == t.typeSize && t.typeSize % 4 == 0
            && (t.typeSize == 12 * n <==> 12 * n < WORD)
  {
    hide Declared, Descriptors, InBody, Product, MachinePadding;
    SizesStayValid(spec);
    DeclaredDescriptors(spec);
    Dozens(Descriptors(spec));
  }

  lemma Dozens(n: nat)
    ensures Product(n % WORD, 12) % 4 == 0
    ensures n > 1 ==> ((if n % WORD > 1 then Product(n % WORD, 12) else 12) == 12 * n <==> 12 * n < WORD)
  {
    hide Product;
    ProductWraps(n, 12);
    var q := n * 12 / WORD;
    assert n * 12 == WORD * q + n * 12 % WORD;
    assert n * 12 % WORD == 4 * (3 * n - 0x4000_0000 * q);
  }

  // ----- what that means for requests -----

  /** A type that is another name for a varying string of more than one character. */
  predicate NamesString(spec: Spec) {
    spec.Named? && Varying(spec) && IsString(spec) && Items(spec) > 1
  }

  /** Apart from arrays that are too large, a value is oversized exactly if its type is another name for
      a varying string and the string is not empty: its characters are counted against a limit of one. */
  lemma OversizedByName(spec: Spec, v: Value)
    requires InBody(spec) && Declared(spec).Some? && Sound(spec)
    requires Meaning(spec).WellFormed() && Fits(Meaning(spec), v)
    ensures NamesString(spec) ==> v.Text?
    ensures Oversized(Meaning(spec), v) <==> TooLarge(Meaning(spec), v) || (NamesString(spec) && v.chars != [])
  {
    hide Oversized, Scaled;
    MeaningVaries(spec);
    if !Varying(spec) {
      NotTooLarge(Meaning(spec), v);
      FixedNotOversized(Meaning(spec), v);
    } else {
      OversizedExactly(Meaning(spec), v);
      if spec.Named? && IsString(spec) {
        VaryingString(spec);
        ByteStrings(Items(spec));
      }
    }
  }

  lemma FixedNotOversized(f: Field, v: Value)
    requires f.WellFormed() && Fits(f, v) && !f.Var?
    ensures !Oversized(f, v)
  {
  }

  lemma {:induction false} MeaningVaries(spec: Spec)
    ensures Meaning(spec).Var? <==> Varying(spec)
    ensures Varying(spec) ==> Meaning(spec).text == IsString(spec)
  {
    if spec.Named? {
      MeaningVaries(spec.of);
    }
  }

  /** The fields of a request by the types of its arguments; None stands for what migcom puts in front
      of them, the NDR record or descriptors. */
  ghost predicate DeclaredBy(fs: seq<Field>, specs: seq<Option<Spec>>) {
    && |specs| == |fs|
    && (forall k :: 0 <= k < |fs| && specs[k].Some? ==>
          InBody(specs[k].value) && Declared(specs[k].value).Some? && Sound(specs[k].value) && fs[k] == Meaning(specs[k].value))
    && (forall k :: 0 <= k < |fs| && specs[k].None? ==> fs[k].Fixed?)
  }

  /** A request whose arguments have sound types: the procedure is called, with the client's values, if
      and only if no array is too large and every string of a type that is another name for a varying
      string is empty. */
  method DeclaredRoundTrip(s: Shape, specs: seq<Option<Spec>>, vs: seq<Value>, zerofill: bool, stack: seq<byte>,
                           retc: bool, kernel: bool) returns (r: CallResult)
    requires DeclaredBy(s.fs, specs) && s.Size() < WORD && (s.simple ==> s.kpds == 0)
    requires FitAll(s.fs, vs) && |stack| == s.Size()
    ensures r.Called? <==> forall k :: 0 <= k < |s.fs| ==>
              !TooLarge(s.fs[k], vs[k]) && (specs[k].Some? && NamesString(specs[k].value) ==> vs[k].Text? && vs[k].chars == [])
    ensures r.Called? ==> WellFormed(s.fs) && |r.args| == |vs| && forall k :: 0 <= k < |vs| ==> r.args[k] == Delivered(s.fs[k], vs[k])
  {
    hide Meaning, Sound, Declared, InBody, NamesString, Oversized, TooLarge, Fits, Delivered, RunsOver, NeverAccepted;
    forall k | 0 <= k < |s.fs|
      ensures s.fs[k].WellFormed()
    {
      DeclaredWellFormed(s.fs, specs, k);
    }
    forall k | 0 <= k < |s.fs|
      ensures Oversized(s.fs[k], vs[k]) <==>
              !(!TooLarge(s.fs[k], vs[k]) && (specs[k].Some? && NamesString(specs[k].value) ==> vs[k].Text? && vs[k].chars == []))
    {
      DeclaredOversized(s.fs[k], specs[k], vs[k]);
    }
    r := RequestRoundTrip(s, vs, zerofill, stack, retc, kernel);
  }

  lemma DeclaredWellFormed(fs: seq<Field>, specs: seq<Option<Spec>>, k: nat)
    requires DeclaredBy(fs, specs) && k < |fs|
    ensures fs[k].WellFormed()
  {
    hide Meaning, Sound, Declared, InBody, Prints;
    if specs[k].Some? {
      PrintsExactly(specs[k].value);
    }
  }

  lemma DeclaredOversized(f: Field, spec: Option<Spec>, v: Value)
    requires f.WellFormed() && Fits(f, v)
    requires spec.None? ==> f.Fixed?
    requires spec.Some? ==> InBody(spec.value) && Declared(spec.value).Some? && Sound(spec.value) && f == Meaning(spec.value)
    ensures Oversized(f, v) <==>
            !(!TooLarge(f, v) && (spec.Some? && NamesString(spec.value) ==> v.Text? && v.chars == []))
  {
    hide Meaning, Sound, Declared, InBody, NamesString, Oversized;
    if spec.Some? {
      OversizedByName(spec.value, v);
    } else {
      FixedNotOversized(f, v);
    }
  }

  /** type S = c_string[*:100]; type T = S; and a request with "abc" for a T: the size sent is beyond the
      struct, and the procedure is not called. */
  method AliasRunsOver(zerofill: bool, stack: seq<byte>, kernel: bool) returns (s: Shape, r: CallResult)
    requires |stack| == HEADER + NDR_SIZE + 108
    ensures var spec := Named(CString(100, true));
            && Declared(spec).Some? && Sound(spec) && s == Shape(true, 0, [Fixed(NDR_SIZE), Meaning(spec)])
    ensures r.RanOver? && r.packing.Overrun? && r.packing.size == HEADER + NDR_SIZE + 8 + 400 > s.Size()
  {
    hide Scaled, Align4, NeverAccepted, Declared, Sound, Meaning, FirstOversized, GrownBefore, Offset, HeadsFrom, Count;
    hide Position, Carries, ArgSize;
    AliasField();
    s := Shape(true, 0, [Fixed(NDR_SIZE), Meaning(Named(CString(100, true)))]);
    var vs := [Block(Zeros(NDR_SIZE)), Text([97, 98, 99])];
    AliasRequest(s, vs);
    r := RequestRoundTrip(s, vs, zerofill, stack, false, kernel);
    OnlyFirst(s.fs, vs, 1);
  }

  lemma OnlyFirst(fs: seq<Field>, vs: seq<Value>, k: nat)
    requires WellFormed(fs) && FitAll(fs, vs) && FirstOversized(fs, vs, k)
    ensures forall i: nat :: FirstOversized(fs, vs, i) ==> i == k
  {
  }

  lemma AliasField()
    ensures var spec := Named(CString(100, true));
            Declared(spec).Some? && Sound(spec) && Meaning(spec) == Var(true, 100, 1)
  {
    ByteStrings(100);
  }

  /** The sizes of such a request: 108 bytes in the struct for the string, and 400 for its four characters. */
  lemma AliasRequest(s: Shape, vs: seq<Value>)
    requires s == Shape(true, 0, [Fixed(NDR_SIZE), Var(true, 100, 1)])
    requires |vs| == 2 && Fits(s.fs[0], vs[0]) && vs[1] == Text([97, 98, 99])
    ensures s.Valid() && FitAll(s.fs, vs) && FirstOversized(s.fs, vs, 1) && !TooLarge(s.fs[1], vs[1])
    ensures s.Size() == HEADER + NDR_SIZE + 108 && MinSize(HEADER, s.fs) == HEADER + NDR_SIZE + 8
    ensures GrownBefore(s.fs, vs, 1) == 0 && Count(s.fs[1], vs[1]) == 4 && ArgSize(100, 4) == 400
  {
    hide Scaled, Align4;
    var fs := s.fs;
    ScaledIsProduct(100, 1);
    ScaledIsProduct(100, 4);
    Align4IsRounding(100);
    Align4IsRounding(8);
    assert fs[1].Head() == 8 && fs[1].Area() == 100 && fs[0].Head() == 8 && fs[0].Area() == 0;
    assert Offset(HEADER, fs, 1) == HEADER + 8;
    assert HeadsFrom(fs, 1) == 8 + HeadsFrom(fs, 2);
    FixedNotOversized(fs[0], vs[0]);
    assert Oversized(fs[1], vs[1]);
  }
}
