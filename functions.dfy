/**
 * The VT function definitions of src/vtbackend/Functions.h: what a control
 * function looks like on the wire (category, leader, intermediate, final
 * byte, parameter-count range), the total order the function table is sorted
 * by, the bit-packed id, the serialiser that writes a definition out with
 * its parameters in the control-sequence layout of section 5.4 of ECMA-48,
 * and the selectors the sequencer looks definitions up with.
 */
module Functions {

  /** `char`: a signed 8-bit value. */
  type Char8 = c: int | -128 <= c < 128

  /** `uint8_t` and `uint16_t`. */
  type U8 = n: int | 0 <= n < 0x100
  type U16 = n: int | 0 <= n < 0x1_0000

  /** FunctionCategory, with the numeric values the enum gives it. */
  datatype FunctionCategory = C0 | ESC | CSI | OSC | DCS {
    function Value(): int {
      match this
      case C0 => 0
      case ESC => 1
      case CSI => 2
      case OSC => 3
      case DCS => 4
    }
  }

  /**
   * The conformance levels, in the order of their enumerators (VT330 and
   * VT340 precede VT320). Level is the numeric value `<=` compares.
   */
  datatype VTType = VT100 | VT220 | VT240 | VT330 | VT340 | VT320 | VT420 | VT510 | VT520 | VT525 {
    function Level(): int {
      match this
      case VT100 => 0
      case VT220 => 1
      case VT240 => 2
      case VT330 => 3
      case VT340 => 4
      case VT320 => 5
      case VT420 => 6
      case VT510 => 7
      case VT520 => 8
      case VT525 => 9
    }
  }

  /** The protocol extensions; NoExtension is `VTExtension::None`. */
  datatype VTExtension = NoExtension | Unknown | XTerm | Contour

  /** FunctionDefinition: the syntax of one control function plus descriptive metadata. */
  datatype FunctionDefinition = FunctionDefinition(
    category: FunctionCategory,
    leader: Char8,
    intermediate: Char8,
    finalSymbol: Char8,
    minimumParameters: U8,
    maximumParameters: U16,
    conformanceLevel: VTType,
    extension: VTExtension,
    mnemonic: string,
    comment: string)

  // ---------------------------------------------------------------------------
  // The definitions' constructors (namespace detail)
  // ---------------------------------------------------------------------------

  /** detail::C0: a C0 control character; no leader, intermediate or parameters. */
  function C0Definition(finalCharacter: Char8, mnemonic: string, description: string, vt: VTType): FunctionDefinition {
    FunctionDefinition(C0, 0, 0, finalCharacter, 0, 0, vt, NoExtension, mnemonic, description)
  }

  /** detail::OSC: an operating system command; its code is stored as maximumParameters. */
  function OscDefinition(code: U16, ext: VTExtension, mnemonic: string, description: string): FunctionDefinition {
    FunctionDefinition(OSC, 0, 0, 0, 0, code, VT100, ext, mnemonic, description)
  }

  /** detail::ESC: an escape sequence with an optional intermediate (0 when absent). */
  function EscDefinition(intermediate: Char8, finalCharacter: Char8, vt: VTType, mnemonic: string, description: string): FunctionDefinition {
    FunctionDefinition(ESC, 0, intermediate, finalCharacter, 0, 0, vt, NoExtension, mnemonic, description)
  }

  /** detail::CSI, both overloads: a conformance level leaves the extension None, an extension sets the level to VT100. */
  function CsiDefinition(leader: Char8, argc0: U8, argc1: U8, intermediate: Char8, finalCharacter: Char8,
                         vt: VTType, ext: VTExtension, mnemonic: string, description: string): FunctionDefinition {
    FunctionDefinition(CSI, leader, intermediate, finalCharacter, argc0, argc1, vt, ext, mnemonic, description)
  }

  /** detail::DCS, both overloads. */
  function DcsDefinition(leader: Char8, argc0: U8, argc1: U8, intermediate: Char8, finalCharacter: Char8,
                         vt: VTType, ext: VTExtension, mnemonic: string, description: string): FunctionDefinition {
    FunctionDefinition(DCS, leader, intermediate, finalCharacter, argc0, argc1, vt, ext, mnemonic, description)
  }

  // ---------------------------------------------------------------------------
  // compare and the relational operators
  // ---------------------------------------------------------------------------

  /**
   * compare(FunctionDefinition, FunctionDefinition): the difference of the
   * first differing field, in the order category, final symbol, leader,
   * intermediate, minimum and maximum parameter count.
   */
  function Compare(a: FunctionDefinition, b: FunctionDefinition): int {
    if a.category != b.category then a.category.Value() - b.category.Value()
    else if a.finalSymbol != b.finalSymbol then a.finalSymbol - b.finalSymbol
    else if a.leader != b.leader then a.leader - b.leader
    else if a.intermediate != b.intermediate then a.intermediate - b.intermediate
    else if a.minimumParameters != b.minimumParameters then a.minimumParameters - b.minimumParameters
    else a.maximumParameters - b.maximumParameters
  }

  /** The fields compare looks at, most significant first. */
  function Key(d: FunctionDefinition): seq<int> {
    [d.category.Value(), d.finalSymbol, d.leader, d.intermediate, d.minimumParameters, d.maximumParameters]
  }

  /** Lexicographic order on integer sequences of equal length. */
  predicate LexLess(x: seq<int>, y: seq<int>)
    requires |x| == |y|
  {
    |x| > 0 && (x[0] < y[0] || (x[0] == y[0] && LexLess(x[1..], y[1..])))
  }

  lemma {:induction false} LexLessIrreflexive(x: seq<int>)
    ensures !LexLess(x, x)
  {
    if |x| > 0 {
      LexLessIrreflexive(x[1..]);
    }
  }

  lemma {:induction false} LexLessTransitive(x: seq<int>, y: seq<int>, z: seq<int>)
    requires |x| == |y| == |z|
    requires LexLess(x, y) && LexLess(y, z)
    ensures LexLess(x, z)
  {
    if x[0] == y[0] && y[0] == z[0] {
      LexLessTransitive(x[1..], y[1..], z[1..]);
    }
  }

  lemma {:induction false} LexLessTotal(x: seq<int>, y: seq<int>)
    requires |x| == |y|
    ensures x == y || LexLess(x, y) || LexLess(y, x)
  {
    if |x| > 0 && x[0] == y[0] {
      LexLessTotal(x[1..], y[1..]);
      if x[1..] == y[1..] {
        assert x == [x[0]] + x[1..] && y == [y[0]] + y[1..];
      }
    }
  }

  /**
   * compare is the lexicographic order over (category, final symbol, leader,
   * intermediate, minimum, maximum): negative exactly when the key of `a`
   * comes first, zero exactly when the keys are equal.
   */
  lemma CompareIsLexicographic(a: FunctionDefinition, b: FunctionDefinition)
    ensures Compare(a, b) < 0 <==> LexLess(Key(a), Key(b))
    ensures Compare(a, b) == 0 <==> Key(a) == Key(b)
    ensures Compare(a, b) > 0 <==> LexLess(Key(b), Key(a))
  {
    var ka, kb := Key(a), Key(b);
    LexLessUnfold(ka, kb);
    LexLessUnfold(kb, ka);
    if a.category == b.category && a.finalSymbol == b.finalSymbol && a.leader == b.leader
      && a.intermediate == b.intermediate && a.minimumParameters == b.minimumParameters
      && a.maximumParameters == b.maximumParameters {
      assert ka == kb;
      LexLessIrreflexive(ka);
    }
    if ka == kb {
      assert ka[0] == kb[0];
    }
  }

  /** LexLess on six-element keys, spelled out element by element. */
  lemma LexLessUnfold(x: seq<int>, y: seq<int>)
    requires |x| == |y| == 6
    ensures LexLess(x, y) <==>
      x[0] < y[0] || (x[0] == y[0] && (x[1] < y[1] || (x[1] == y[1] && (x[2] < y[2] || (x[2] == y[2] &&
      (x[3] < y[3] || (x[3] == y[3] && (x[4] < y[4] || (x[4] == y[4] && x[5] < y[5])))))))))
  {
    var x1, y1 := x[1..], y[1..];
    var x2, y2 := x1[1..], y1[1..];
    var x3, y3 := x2[1..], y2[1..];
    var x4, y4 := x3[1..], y3[1..];
    var x5, y5 := x4[1..], y4[1..];
    assert !LexLess(x5[1..], y5[1..]);
    assert LexLess(x5, y5) <==> x[5] < y[5];
    assert LexLess(x4, y4) <==> x[4] < y[4] || (x[4] == y[4] && x[5] < y[5]);
    assert LexLess(x3, y3) <==> x[3] < y[3] || (x[3] == y[3] && LexLess(x4, y4));
    assert LexLess(x2, y2) <==> x[2] < y[2] || (x[2] == y[2] && LexLess(x3, y3));
    assert LexLess(x1, y1) <==> x[1] < y[1] || (x[1] == y[1] && LexLess(x2, y2));
    assert LexLess(x, y) <==> x[0] < y[0] || (x[0] == y[0] && LexLess(x1, y1));
  }

  /** Every definition compares equal to itself. */
  lemma CompareReflexive(a: FunctionDefinition)
    ensures Compare(a, a) == 0
  {
  }

  /** Swapping the arguments negates the result, so the signs are opposite. */
  lemma CompareAntisymmetric(a: FunctionDefinition, b: FunctionDefinition)
    ensures Compare(b, a) == -Compare(a, b)
  {
  }

  /** `<=` by compare is transitive, so sorting by compare is well defined. */
  lemma CompareTransitive(a: FunctionDefinition, b: FunctionDefinition, c: FunctionDefinition)
    requires Compare(a, b) <= 0 && Compare(b, c) <= 0
    ensures Compare(a, c) <= 0
  {
    CompareIsLexicographic(a, b);
    CompareIsLexicographic(b, c);
    CompareIsLexicographic(a, c);
    if LexLess(Key(a), Key(b)) && LexLess(Key(b), Key(c)) {
      LexLessTransitive(Key(a), Key(b), Key(c));
    }
  }

  /** operator== and the other relational operators, all defined through compare. */
  predicate Equal(a: FunctionDefinition, b: FunctionDefinition) { Compare(a, b) == 0 }
  predicate NotEqual(a: FunctionDefinition, b: FunctionDefinition) { Compare(a, b) != 0 }
  predicate LessEq(a: FunctionDefinition, b: FunctionDefinition) { Compare(a, b) <= 0 }
  predicate GreaterEq(a: FunctionDefinition, b: FunctionDefinition) { Compare(a, b) >= 0 }
  predicate Less(a: FunctionDefinition, b: FunctionDefinition) { Compare(a, b) < 0 }
  predicate Greater(a: FunctionDefinition, b: FunctionDefinition) { Compare(a, b) > 0 }

  /**
   * operator== identifies definitions with the same syntax regardless of
   * conformance level, extension, mnemonic and comment; `<` is a strict
   * total order on the keys and the other operators are its derived forms.
   */
  lemma RelationalOperators(a: FunctionDefinition, b: FunctionDefinition)
    ensures Equal(a, b) <==> Key(a) == Key(b)
    ensures NotEqual(a, b) <==> !Equal(a, b)
    ensures !Less(a, a)
    ensures Less(a, b) || Equal(a, b) || Greater(a, b)
    ensures Less(a, b) <==> Greater(b, a)
    ensures LessEq(a, b) <==> Less(a, b) || Equal(a, b)
    ensures GreaterEq(a, b) <==> LessEq(b, a)
  {
    CompareIsLexicographic(a, b);
  }

  /** Two definitions with the same syntactic fields are equal under operator==. */
  lemma EqualIgnoresMetadata(a: FunctionDefinition, vt: VTType, ext: VTExtension, mnemonic: string, comment: string)
    ensures Equal(a, a.(conformanceLevel := vt, extension := ext, mnemonic := mnemonic, comment := comment))
  {
  }

  // ---------------------------------------------------------------------------
  // id()
  // ---------------------------------------------------------------------------

  /** `static_cast<uint32_t>` of a value of at most 32 bits: the value modulo 2^32. */
  function U32(x: int): bv32
    requires -0x1_0000_0000 <= x < 0x1_0000_0000
  {
    if x >= 0 then x as bv32 else (x + 0x1_0000_0000) as bv32
  }

  /** The shifts of the fields inside id(). */
  const CategoryShift: bv32 := 0
  const LeaderShift: bv32 := 3
  const IntermediateShift: bv32 := 3 + 3
  const FinalShift: bv32 := 3 + 3 + 4
  const MinParamShift: bv32 := 3 + 3 + 4 + 7
  const MaxParamShift: bv32 := 3 + 3 + 4 + 7 + 4

  /**
   * FunctionDefinition::id(): the fields ORed together at their shifts, in
   * 32-bit unsigned arithmetic. The subtractions and shifts wrap, so a final
   * symbol below 0x40 spills into every higher bit.
   */
  function Id(d: FunctionDefinition): bv32 {
    CategoryMask(d.category) | LeaderMask(d.leader) | IntermediateMask(d.intermediate)
    | FinalMask(d.finalSymbol) | MinParamMask(d.minimumParameters) | MaxParamMask(d.maximumParameters)
  }

  /** The six contributions to id(); a zero leader, intermediate or final contributes 0. */
  function CategoryMask(category: FunctionCategory): bv32 {
    U32(category.Value()) << CategoryShift
  }

  function LeaderMask(leader: Char8): bv32 {
    if leader == 0 then 0 else (U32(leader) - 0x3C) << LeaderShift
  }

  function IntermediateMask(intermediate: Char8): bv32 {
    if intermediate == 0 then 0 else (U32(intermediate) - 0x20 + 1) << IntermediateShift
  }

  function FinalMask(finalSymbol: Char8): bv32 {
    if finalSymbol == 0 then 0 else (U32(finalSymbol) - 0x40) << FinalShift
  }

  function MinParamMask(minimumParameters: U8): bv32 {
    U32(minimumParameters) << MinParamShift
  }

  function MaxParamMask(maximumParameters: U16): bv32 {
    U32(maximumParameters) << MaxParamShift
  }

  /** The three low bits of id() are the category. */
  lemma IdCategoryBits(d: FunctionDefinition)
    ensures Id(d) & 7 == U32(d.category.Value())
  {
    CategoryMaskIsValue(d.category);
    MasksClearLowBits(d);
    LowBitsOfOr(CategoryMask(d.category), LeaderMask(d.leader), IntermediateMask(d.intermediate),
                FinalMask(d.finalSymbol), MinParamMask(d.minimumParameters), MaxParamMask(d.maximumParameters));
  }

  lemma CategoryMaskIsValue(category: FunctionCategory)
    ensures CategoryMask(category) == U32(category.Value()) < 8
  {
    match category
    case C0 => assert U32(0) == 0;
    case ESC => assert U32(1) == 1;
    case CSI => assert U32(2) == 2;
    case OSC => assert U32(3) == 3;
    case DCS => assert U32(4) == 4;
  }

  lemma MasksClearLowBits(d: FunctionDefinition)
    ensures LeaderMask(d.leader) & 7 == 0 && IntermediateMask(d.intermediate) & 7 == 0
    ensures FinalMask(d.finalSymbol) & 7 == 0
    ensures MinParamMask(d.minimumParameters) & 7 == 0 && MaxParamMask(d.maximumParameters) & 7 == 0
  {
    if d.leader != 0 { ShiftClearsLowBits(U32(d.leader) - 0x3C, LeaderShift); }
    if d.intermediate != 0 { ShiftClearsLowBits(U32(d.intermediate) - 0x20 + 1, IntermediateShift); }
    if d.finalSymbol != 0 { ShiftClearsLowBits(U32(d.finalSymbol) - 0x40, FinalShift); }
    ShiftClearsLowBits(U32(d.minimumParameters), MinParamShift);
    ShiftClearsLowBits(U32(d.maximumParameters), MaxParamShift);
  }

  lemma ShiftClearsLowBits(x: bv32, n: bv32)
    requires 3 <= n < 32
    ensures (x << n) & 7 == 0
  {
  }

  lemma LowBitsOfOr(c: bv32, m1: bv32, m2: bv32, m3: bv32, m4: bv32, m5: bv32)
    requires c < 8 && m1 & 7 == 0 && m2 & 7 == 0 && m3 & 7 == 0 && m4 & 7 == 0 && m5 & 7 == 0
    ensures (c | m1 | m2 | m3 | m4 | m5) & 7 == c
  {
  }

  /** Zero leader, intermediate, final symbol and parameter counts contribute nothing: only the category is left. */
  lemma IdOfBareCategory(d: FunctionDefinition)
    requires d.leader == 0 && d.intermediate == 0 && d.finalSymbol == 0
    requires d.minimumParameters == 0 && d.maximumParameters == 0
    ensures Id(d) == U32(d.category.Value())
  {
  }

  /** id() reads only the fields compare reads; metadata does not change it. */
  lemma IdDependsOnlyOnKey(a: FunctionDefinition, b: FunctionDefinition)
    requires Key(a) == Key(b)
    ensures Id(a) == Id(b)
  {
    assert Key(a)[0] == Key(b)[0] && Key(a)[1] == Key(b)[1] && Key(a)[2] == Key(b)[2];
    assert Key(a)[3] == Key(b)[3] && Key(a)[4] == Key(b)[4] && Key(a)[5] == Key(b)[5];
    assert a.category == b.category;
  }

  /** ESC with intermediate '/' and final '@', and ESC with final 'A' alone. */
  const EscSlashAt: FunctionDefinition := EscDefinition(0x2F, 0x40, VT100, "", "")
  const EscA: FunctionDefinition := EscDefinition(0, 0x41, VT100, "", "")

  /**
   * id() is not injective: the intermediate '/' gives 0x10 in a 4-bit field,
   * whose top bit lands in the final symbol's field.
   */
  lemma IdCollision()
    ensures !Equal(EscSlashAt, EscA)
    ensures Id(EscSlashAt) == Id(EscA) == 0x401
  {
    assert U32(1) == 1 && U32(0) == 0;
    assert IntermediateMask(0x2F) == 0x400 by { assert U32(0x2F) == 0x2F; }
    assert FinalMask(0x40) == 0 by { assert U32(0x40) == 0x40; }
    assert FinalMask(0x41) == 0x400 by { assert U32(0x41) == 0x41; }
  }

  /**
   * The leader '<' (0x3C) packs to 0, the same as no leader, so every
   * definition collides with its '<'-led twin.
   */
  lemma IdIgnoresLessThanLeader(d: FunctionDefinition)
    ensures !Equal(d.(leader := 0x3C), d.(leader := 0))
    ensures Id(d.(leader := 0x3C)) == Id(d.(leader := 0))
  {
    assert LeaderMask(0x3C) == 0 by { assert U32(0x3C) == 0x3C; }
  }

  /**
   * Every final symbol between 1 and 0x3F wraps: its contribution sets all 16
   * top bits, which cover both parameter-count fields. So id() of such a
   * definition has those bits set and does not depend on its parameter counts.
   */
  lemma {:induction false} IdFinalBelow0x40(d: FunctionDefinition, minimumParameters: U8, maximumParameters: U16)
    requires 0 < d.finalSymbol < 0x40
    ensures FinalMask(d.finalSymbol) & 0xFFFF_0000 == 0xFFFF_0000
    ensures Id(d) & 0xFFFF_0000 == 0xFFFF_0000
    ensures Id(d.(minimumParameters := minimumParameters, maximumParameters := maximumParameters)) == Id(d)
  {
    WrappedFinalHighBits(U32(d.finalSymbol));
    assert MinParamMask(minimumParameters) & !0xFFFF_0000 == 0 && MinParamMask(d.minimumParameters) & !0xFFFF_0000 == 0 by {
      MinParamMaskHigh(minimumParameters);
      MinParamMaskHigh(d.minimumParameters);
    }
    assert MaxParamMask(maximumParameters) & !0xFFFF_0000 == 0 && MaxParamMask(d.maximumParameters) & !0xFFFF_0000 == 0 by {
      MaxParamMaskHigh(maximumParameters);
      MaxParamMaskHigh(d.maximumParameters);
    }
  }

  lemma WrappedFinalHighBits(f: bv32)
    requires f < 0x40
    ensures ((f - 0x40) << FinalShift) & 0xFFFF_0000 == 0xFFFF_0000
  {
    assert FinalShift == 10;
  }

  lemma MinParamMaskHigh(n: U8)
    ensures MinParamMask(n) & !0xFFFF_0000 == 0
  {
    assert U32(n) < 0x100;
  }

  lemma MaxParamMaskHigh(n: U16)
    ensures MaxParamMask(n) & !0xFFFF_0000 == 0
  {
    assert U32(n) < 0x1_0000;
  }

  /** DECSC (ESC 7): the final '7' is below 0x40 and the wrapped difference fills the high bits. */
  lemma IdOfDecsc()
    ensures Id(EscDefinition(0, 0x37, VT100, "DECSC", "Save Cursor")) == 0xFFFF_DC01
  {
    assert U32(0x37) == 0x37 && U32(1) == 1 && U32(0) == 0;
    assert FinalMask(0x37) == 0xFFFF_DC00;
  }

  /**
   * A hash with the property the comment on `std::hash<FunctionDefinition>`
   * claims for id(): every field compare reads gets a range of its own, the
   * category 3 bits, leader, intermediate and final symbol 8 bits each, the
   * minimum parameter count 8 bits and the maximum above them.
   */
  function PackedKey(d: FunctionDefinition): nat {
    d.category.Value()
    + 8 * ((d.leader + 128)
           + 0x100 * ((d.intermediate + 128)
                      + 0x100 * ((d.finalSymbol + 128)
                                 + 0x100 * (d.minimumParameters + 0x100 * d.maximumParameters))))
  }

  /** One field of a packing: equal packings have equal low digits and equal rests. */
  lemma UnpackDigit(base: nat, x: int, r: int, y: int, q: int)
    requires base == 8 || base == 0x100
    requires 0 <= x < base && 0 <= y < base && x + base * r == y + base * q
    ensures x == y && r == q
  {
    if base == 8 {
      assert 8 * (q - r) == x - y;
    } else {
      assert 0x100 * (q - r) == x - y;
    }
  }

  /** PackedKey identifies definitions exactly as operator== does, so it is a perfect hash. */
  lemma PackedKeyInjective(a: FunctionDefinition, b: FunctionDefinition)
    ensures PackedKey(a) == PackedKey(b) <==> Equal(a, b)
  {
    CompareIsLexicographic(a, b);
    if PackedKey(a) == PackedKey(b) {
      var ra := (a.leader + 128) + 0x100 * ((a.intermediate + 128) + 0x100 * ((a.finalSymbol + 128)
                + 0x100 * (a.minimumParameters + 0x100 * a.maximumParameters)));
      var rb := (b.leader + 128) + 0x100 * ((b.intermediate + 128) + 0x100 * ((b.finalSymbol + 128)
                + 0x100 * (b.minimumParameters + 0x100 * b.maximumParameters)));
      UnpackDigit(8, a.category.Value(), ra, b.category.Value(), rb);
      var sa := (a.intermediate + 128) + 0x100 * ((a.finalSymbol + 128) + 0x100 * (a.minimumParameters + 0x100 * a.maximumParameters));
      var sb := (b.intermediate + 128) + 0x100 * ((b.finalSymbol + 128) + 0x100 * (b.minimumParameters + 0x100 * b.maximumParameters));
      UnpackDigit(0x100, a.leader + 128, sa, b.leader + 128, sb);
      var ta := (a.finalSymbol + 128) + 0x100 * (a.minimumParameters + 0x100 * a.maximumParameters);
      var tb := (b.finalSymbol + 128) + 0x100 * (b.minimumParameters + 0x100 * b.maximumParameters);
      UnpackDigit(0x100, a.intermediate + 128, ta, b.intermediate + 128, tb);
      var ua := a.minimumParameters + 0x100 * a.maximumParameters;
      var ub := b.minimumParameters + 0x100 * b.maximumParameters;
      UnpackDigit(0x100, a.finalSymbol + 128, ua, b.finalSymbol + 128, ub);
      UnpackDigit(0x100, a.minimumParameters, a.maximumParameters, b.minimumParameters, b.maximumParameters);
      assert a.category == b.category;
      assert Key(a) == Key(b);
    }
  }

  /** The two ESC definitions id() confuses get different packed keys. */
  lemma PackedKeySeparatesCollision()
    ensures PackedKey(EscSlashAt) != PackedKey(EscA)
  {
    IdCollision();
    PackedKeyInjective(EscSlashAt, EscA);
  }

  // ---------------------------------------------------------------------------
  // operator(): serialising a definition with its parameters
  // ---------------------------------------------------------------------------

  /** The byte a `char` stands for, as a character of the output string. */
  function ByteChar(c: Char8): char {
    ((c + 0x100) % 0x100) as char
  }

  /** The ESC character, 0x1B. */
  const Escape: char := 27 as char

  /** The category's introducer: nothing, ESC, ESC [, ESC ] or ESC P. */
  function Introducer(category: FunctionCategory): string {
    match category
    case C0 => ""
    case ESC => [Escape]
    case CSI => [Escape, '[']
    case OSC => [Escape, ']']
    case DCS => [Escape, 'P']
  }

  /** A character appended only when non-zero (leader and intermediate). */
  function Optional(c: Char8): string {
    if c == 0 then "" else [ByteChar(c)]
  }

  /** The decimal digit for 0 <= d < 10. */
  function Digit(d: int): char
    requires 0 <= d < 10
  {
    ('0' as int + d) as char
  }

  /** `fmt::format("{}", n)` for a non-negative integer: its decimal digits. */
  function Decimal(n: nat): (s: string)
    ensures |s| > 0
    ensures forall i :: 0 <= i < |s| ==> '0' <= s[i] <= '9'
  {
    if n < 10 then [Digit(n)] else Decimal(n / 10) + [Digit(n % 10)]
  }

  /** Reads a string of decimal digits back. */
  function ParseDecimal(s: string): int {
    if s == [] then 0 else ParseDecimal(s[..|s| - 1]) * 10 + (s[|s| - 1] as int - '0' as int)
  }

  lemma {:induction false} DecimalRoundTrip(n: nat)
    ensures ParseDecimal(Decimal(n)) == n
  {
    if n >= 10 {
      DecimalRoundTrip(n / 10);
      var s := Decimal(n);
      assert s[..|s| - 1] == Decimal(n / 10);
    }
  }

  /** Each parameter followed by ';': what the fold in operator() builds. */
  function Terminated(params: seq<nat>): string {
    if params == [] then "" else Decimal(params[0]) + ";" + Terminated(params[1..])
  }

  /** The parameters separated by ';' (the reference layout). */
  function Join(params: seq<nat>): string {
    if params == [] then ""
    else if |params| == 1 then Decimal(params[0])
    else Decimal(params[0]) + ";" + Join(params[1..])
  }

  /** Dropping the trailing ';' of the fold (pop_back) leaves the parameters joined by ';'. */
  lemma {:induction false} TerminatedIsJoinedPlusSemicolon(params: seq<nat>)
    requires params != []
    ensures Terminated(params) == Join(params) + ";"
    ensures DropLast(Terminated(params)) == Join(params)
  {
    if |params| > 1 {
      TerminatedIsJoinedPlusSemicolon(params[1..]);
    } else {
      assert params[1..] == [];
    }
  }

  /** std::string::pop_back. */
  function DropLast(s: string): string
    requires s != []
  {
    s[..|s| - 1]
  }

  /**
   * FunctionDefinition::operator(): the introducer, the leader if non-zero,
   * each parameter followed by ';' with the last ';' dropped, the
   * intermediate if non-zero, and the final symbol. The caller must pass a
   * parameter count within the definition's range.
   */
  function Serialize(d: FunctionDefinition, params: seq<nat>): (r: string)
    requires d.minimumParameters <= |params| <= d.maximumParameters
    ensures params != [] ==> Terminated(params) != []
    ensures r == Introducer(d.category) + Optional(d.leader) + Join(params) + Optional(d.intermediate) + [ByteChar(d.finalSymbol)]
    ensures |r| > 0 && r[|r| - 1] == ByteChar(d.finalSymbol)
  {
    var head := Introducer(d.category) + Optional(d.leader);
    var body := if params == [] then "" else (TerminatedIsJoinedPlusSemicolon(params); DropLast(Terminated(params)));
    head + body + Optional(d.intermediate) + [ByteChar(d.finalSymbol)]
  }

  /** The position of the first ';' in `s`, or |s| if there is none. */
  function IndexOfSemicolon(s: string): (i: nat)
    ensures i <= |s|
    ensures forall k :: 0 <= k < i ==> s[k] != ';'
    ensures i < |s| ==> s[i] == ';'
  {
    if s == [] || s[0] == ';' then 0 else 1 + IndexOfSemicolon(s[1..])
  }

  /** Splits a parameter string on ';'; the empty string holds no parameters. */
  function Split(s: string): seq<string>
    decreases |s|, 0
  {
    if s == [] then []
    else
      var i := IndexOfSemicolon(s);
      if i == |s| then [s] else [s[..i]] + SplitRest(s[i + 1..])
  }

  /** The fields after a separator: there is always one, possibly empty. */
  function SplitRest(s: string): seq<string>
    decreases |s|, 1
  {
    if s == [] then [""] else Split(s)
  }

  /** Reads a serialised parameter list back. */
  function ParseParameters(s: string): seq<int> {
    var fields := Split(s);
    seq(|fields|, i requires 0 <= i < |fields| => ParseDecimal(fields[i]))
  }

  lemma {:induction false} SplitJoin(params: seq<nat>)
    ensures |Split(Join(params))| == |params|
    ensures forall i :: 0 <= i < |params| ==> Split(Join(params))[i] == Decimal(params[i])
  {
    if params != [] {
      var d := Decimal(params[0]);
      assert ';' !in d;
      if |params| == 1 {
        IndexOfNoSemicolon(d);
      } else {
        var rest := Join(params[1..]);
        var s := d + ";" + rest;
        IndexOfAfterDigits(d, rest);
        assert s[..|d|] == d;
        assert s[|d| + 1..] == rest;
        SplitJoin(params[1..]);
        JoinNonEmpty(params[1..]);
      }
    }
  }

  lemma JoinNonEmpty(params: seq<nat>)
    requires params != []
    ensures Join(params) != []
  {
  }

  lemma {:induction false} IndexOfNoSemicolon(s: string)
    requires ';' !in s
    ensures IndexOfSemicolon(s) == |s|
  {
    if s != [] {
      IndexOfNoSemicolon(s[1..]);
    }
  }

  lemma {:induction false} IndexOfAfterDigits(d: string, rest: string)
    requires ';' !in d
    ensures IndexOfSemicolon(d + ";" + rest) == |d|
  {
    if d != [] {
      assert (d + ";" + rest)[1..] == d[1..] + ";" + rest;
      IndexOfAfterDigits(d[1..], rest);
    }
  }

  lemma MiddleOf(p: string, m: string, q: string)
    ensures (p + m + q)[|p|..|p| + |m|] == m
  {
  }

  /**
   * The serialiser's inverse: stripping the introducer, leader, intermediate
   * and final symbol off the output and splitting the rest on ';' gives the
   * parameters back.
   */
  lemma SerializeRoundTrip(d: FunctionDefinition, params: seq<nat>)
    requires d.minimumParameters <= |params| <= d.maximumParameters
    ensures
      var r := Serialize(d, params);
      var from := |Introducer(d.category)| + |Optional(d.leader)|;
      var to := |r| - 1 - |Optional(d.intermediate)|;
      from <= to && ParseParameters(r[from..to]) == params
  {
    var r := Serialize(d, params);
    var pre := Introducer(d.category) + Optional(d.leader);
    var post := Optional(d.intermediate) + [ByteChar(d.finalSymbol)];
    assert r == pre + Join(params) + post;
    MiddleOf(pre, Join(params), post);
    SplitJoin(params);
    forall i | 0 <= i < |params| ensures ParseDecimal(Split(Join(params))[i]) == params[i] {
      DecimalRoundTrip(params[i]);
    }
  }

  // ---------------------------------------------------------------------------
  // FunctionSelector
  // ---------------------------------------------------------------------------

  /** FunctionSelector: the fields the parser collected; argc is the number of parameters (for OSC, the code). */
  datatype FunctionSelector = FunctionSelector(
    category: FunctionCategory,
    leader: Char8,
    argc: int,
    intermediate: Char8,
    finalSymbol: Char8)

  /**
   * compare(FunctionSelector, FunctionDefinition): the first differing
   * syntactic field decides; then an OSC selector compares its code with
   * the definition's, and any other selector is below, inside or above the
   * definition's parameter-count range.
   */
  function CompareSelector(a: FunctionSelector, b: FunctionDefinition): int {
    if a.category != b.category then a.category.Value() - b.category.Value()
    else if a.finalSymbol != b.finalSymbol then a.finalSymbol - b.finalSymbol
    else if a.leader != b.leader then a.leader - b.leader
    else if a.intermediate != b.intermediate then a.intermediate - b.intermediate
    else if a.category == OSC then a.argc - b.maximumParameters
    else if a.argc < b.minimumParameters then -1
    else if a.argc > b.maximumParameters then 1
    else 0
  }

  /** The selector's syntactic fields equal the definition's. */
  predicate SameSyntax(a: FunctionSelector, b: FunctionDefinition) {
    a.category == b.category && a.finalSymbol == b.finalSymbol && a.leader == b.leader && a.intermediate == b.intermediate
  }

  /**
   * A selector matches (compares 0) exactly when its syntax is the
   * definition's and, for OSC, its code is the definition's; otherwise its
   * argument count lies in [minimumParameters, maximumParameters], with -1
   * below and +1 above that range.
   */
  lemma SelectorMatch(a: FunctionSelector, b: FunctionDefinition)
    ensures a.category == OSC ==> (CompareSelector(a, b) == 0 <==> SameSyntax(a, b) && a.argc == b.maximumParameters)
    ensures a.category != OSC ==>
      (CompareSelector(a, b) == 0 <==> SameSyntax(a, b) && b.minimumParameters <= a.argc <= b.maximumParameters)
    ensures a.category != OSC && SameSyntax(a, b) && a.argc < b.minimumParameters ==> CompareSelector(a, b) == -1
    ensures a.category != OSC && SameSyntax(a, b) && b.minimumParameters <= a.argc && a.argc > b.maximumParameters ==>
      CompareSelector(a, b) == 1
  {
  }

  /**
   * The selector order agrees with the table order: a non-OSC selector below
   * a definition is below every definition that sorts after it, which is
   * what a lower-bound search over the sorted table relies on.
   */
  lemma SelectorBelowIsMonotone(s: FunctionSelector, d1: FunctionDefinition, d2: FunctionDefinition)
    requires s.category != OSC
    requires CompareSelector(s, d1) < 0 && Compare(d1, d2) <= 0
    ensures CompareSelector(s, d2) < 0
  {
    CompareIsLexicographic(d1, d2);
    assert Key(d1)[0] == d1.category.Value();
    if d1.category == d2.category && d1.finalSymbol == d2.finalSymbol && d1.leader == d2.leader && d1.intermediate == d2.intermediate {
      assert Key(d1)[..4] == Key(d2)[..4];
      assert Key(d1)[1..][1..][1..][1..] == [d1.minimumParameters, d1.maximumParameters];
      assert Key(d2)[1..][1..][1..][1..] == [d2.minimumParameters, d2.maximumParameters];
    }
  }

  /** selectEscape: an ESC selector with no leader and no arguments. */
  function SelectEscape(intermediate: Char8, finalCharacter: Char8): FunctionSelector {
    FunctionSelector(ESC, 0, 0, intermediate, finalCharacter)
  }

  /** selectControl: a CSI selector. */
  function SelectControl(leader: Char8, argc: int, intermediate: Char8, finalCharacter: Char8): FunctionSelector {
    FunctionSelector(CSI, leader, argc, intermediate, finalCharacter)
  }

  /** selectOSCommand: an OSC selector carrying the command number as argc. */
  function SelectOSCommand(id: int): FunctionSelector {
    FunctionSelector(OSC, 0, id, 0, 0)
  }

  /** An escape sequence's selector matches exactly the ESC definitions with its intermediate and final. */
  lemma SelectEscapeMatches(intermediate: Char8, finalCharacter: Char8, d: FunctionDefinition)
    ensures CompareSelector(SelectEscape(intermediate, finalCharacter), d) == 0 <==>
      d.category == ESC && d.leader == 0 && d.intermediate == intermediate && d.finalSymbol == finalCharacter
      && d.minimumParameters == 0
    ensures CompareSelector(SelectEscape(d.intermediate, d.finalSymbol), EscDefinition(d.intermediate, d.finalSymbol, d.conformanceLevel, d.mnemonic, d.comment)) == 0
  {
  }

  /** A control sequence's selector matches a CSI definition exactly when argc is within its range. */
  lemma SelectControlMatches(leader: Char8, argc: int, intermediate: Char8, finalCharacter: Char8,
                             argc0: U8, argc1: U8, vt: VTType, ext: VTExtension, mnemonic: string, description: string)
    ensures CompareSelector(SelectControl(leader, argc, intermediate, finalCharacter),
                            CsiDefinition(leader, argc0, argc1, intermediate, finalCharacter, vt, ext, mnemonic, description)) == 0
            <==> argc0 <= argc <= argc1
  {
  }

  /** An OSC selector matches an OSC definition exactly when the command numbers agree. */
  lemma SelectOSCommandMatches(id: int, code: U16, ext: VTExtension, mnemonic: string, description: string)
    ensures CompareSelector(SelectOSCommand(id), OscDefinition(code, ext, mnemonic, description)) == 0 <==> id == code
    ensures CompareSelector(SelectOSCommand(id), OscDefinition(code, ext, mnemonic, description)) < 0 <==> id < code
  {
  }
}
