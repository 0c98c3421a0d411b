/**
 * The keyboard-modifier bitmask and the pending-output window of
 * src/vtbackend/InputGenerator.h.
 */
module InputGenerator {

  /** Modifier::Key: the enumerators and their bits. NoKey is `Modifier::None`. */
  datatype Key = NoKey | Shift | Alt | Control | Meta {
    function Bit(): bv32 {
      match this
      case NoKey => 0
      case Shift => 1
      case Alt => 2
      case Control => 4
      case Meta => 8
    }
  }

  /** A set of modifier keys held as the `unsigned` bitmask `_mask`. */
  datatype Modifier = Modifier(mask: bv32) {

    /** value() */
    function Value(): bv32 { mask }

    /** none(), some() and any(). */
    predicate None() { Value() == 0 }
    predicate Some() { Value() != 0 }
    predicate Any() { mask != 0 }

    /** shift(), alt(), control() and meta(): the key's bit is set. */
    predicate HasShift() { HasKey(Key.Shift) }
    predicate HasAlt() { HasKey(Key.Alt) }
    predicate HasControl() { HasKey(Key.Control) }
    predicate HasMeta() { HasKey(Key.Meta) }

    /** The test `value() & key` those four share. */
    predicate HasKey(key: Key) { Value() & key.Bit() != 0 }

    /**
     * with(): the union of both masks. The same value is what `m |= other`
     * stores into `m` and what `operator|(m, other)` returns.
     */
    function With(other: Modifier): Modifier {
      Modifier(mask | other.mask)
    }

    /** without(): this mask with every bit of `other` cleared. */
    function Without(other: Modifier): Modifier {
      Modifier(mask & !other.mask)
    }

    /** contains(): every bit of `other` is set here. */
    predicate Contains(other: Modifier) {
      mask & other.mask == other.mask
    }

    /** enable(key): the value `_mask` holds after `_mask |= key`. */
    function Enable(key: Key): Modifier {
      Modifier(mask | key.Bit())
    }

    /** disable(key): the value `_mask` holds after `_mask &= ~key`. */
    function Disable(key: Key): Modifier {
      Modifier(mask & !key.Bit())
    }
  }

  /** The converting constructor Modifier(Key). */
  function FromKey(key: Key): Modifier {
    Modifier(key.Bit())
  }

  /** operator< and operator== compare the values; operator! is none(). */
  predicate Less(a: Modifier, b: Modifier) { a.Value() < b.Value() }
  predicate Equal(a: Modifier, b: Modifier) { a.Value() == b.Value() }
  predicate Not(m: Modifier) { m.None() }

  /** operator==(Modifier, Key): the mask is exactly the key's bit. */
  predicate EqualsKey(m: Modifier, key: Key) { m.Value() == key.Bit() }

  /** operator+(Key, Key): both keys' bits. */
  function Plus(a: Key, b: Key): Modifier {
    Modifier(a.Bit() | b.Bit())
  }

  /** operator== is equality of the modifiers; operator< is irreflexive and excludes it. */
  lemma ModifierComparisons(a: Modifier, b: Modifier)
    ensures Equal(a, b) <==> a == b
    ensures Less(a, b) ==> !Equal(a, b) && a != b
    ensures !Less(a, a)
  {}

  /** operator==(Modifier, Key) holds exactly for the modifier made from that key. */
  lemma EqualsKeyIsFromKey(m: Modifier, key: Key)
    ensures EqualsKey(m, key) <==> m == FromKey(key)
  {}

  /** Modifier(Key) holds that key and no other; Modifier(Key::None) holds nothing. */
  lemma FromKeyHoldsOnlyKey(key: Key, other: Key)
    ensures FromKey(key).HasKey(other) <==> other == key && key != NoKey
    ensures FromKey(key).Some() <==> key != NoKey
  {
    match key
    case NoKey =>
    case Shift => assert FromKey(key).mask == 1;
    case Alt => assert FromKey(key).mask == 2;
    case Control => assert FromKey(key).mask == 4;
    case Meta => assert FromKey(key).mask == 8;
  }

  /** contains() is the subset test: no bit of `other` lies outside `m`, in both directions. */
  lemma ContainsHasNoOutsideBits(m: Modifier, other: Modifier)
    ensures m.Contains(other) ==> other.mask & !m.mask == 0
  {}

  lemma NoOutsideBitsContains(m: Modifier, other: Modifier)
    ensures other.mask & !m.mask == 0 ==> m.Contains(other)
  {}

  /** contains() is absorption, in both directions: adding `other` changes nothing. */
  lemma ContainsAbsorbs(m: Modifier, other: Modifier)
    ensures m.Contains(other) ==> m.With(other) == m
  {}

  lemma AbsorbsContains(m: Modifier, other: Modifier)
    ensures m.With(other) == m ==> m.Contains(other)
  {}

  // Single facts about the masks, one per lemma: the solver settles each alone
  // quickly but not several bit-vector goals in one proof.

  lemma WithKeepsOther(m: Modifier, other: Modifier) ensures m.With(other).Contains(other) {}
  lemma WithKeepsThis(m: Modifier, other: Modifier) ensures m.With(other).Contains(m) {}
  lemma WithIsLeast(c: Modifier, m: Modifier, other: Modifier)
    requires c.Contains(m) && c.Contains(other)
    ensures c.Contains(m.With(other))
  {}
  lemma WithoutDisjoint(m: Modifier, other: Modifier) ensures m.Without(other).mask & other.mask == 0 {}
  lemma WithoutRecombines(m: Modifier, other: Modifier)
    ensures m.Without(other).mask | (m.mask & other.mask) == m.mask
  {}
  lemma WithoutIsSubset(m: Modifier, other: Modifier) ensures m.Contains(m.Without(other)) {}
  lemma EnableSetsBit(m: Modifier, key: Key) ensures m.Enable(key).mask & key.Bit() == key.Bit() {}
  lemma EnableKeepsOthers(m: Modifier, key: Key)
    ensures m.Enable(key).mask & !key.Bit() == m.mask & !key.Bit()
  {}
  lemma DisableClearsBit(m: Modifier, key: Key) ensures m.Disable(key).mask & key.Bit() == 0 {}
  lemma DisableKeepsOthers(m: Modifier, key: Key)
    ensures m.Disable(key).mask & !key.Bit() == m.mask & !key.Bit()
  {}
  lemma DisableAfterEnable(m: Modifier, key: Key)
    requires !m.Contains(FromKey(key))
    ensures m.Enable(key).Disable(key) == m
  {
    KeyPredicates(m, key);
  }
  lemma EnableIsWith(m: Modifier, key: Key) ensures m.Enable(key) == m.With(FromKey(key)) {}
  lemma EnableAfterDisable(m: Modifier, key: Key)
    requires m.Contains(FromKey(key))
    ensures m.Disable(key).Enable(key) == m
  {}
  lemma FourBitsBound(m: Modifier)
    requires m.mask & !AllKeys == 0
    ensures m.mask <= 15
  {}

  /**
   * with() keeps both operands: the result contains each of them, and it is
   * the smallest such mask.
   */
  lemma WithContainsBoth(m: Modifier, other: Modifier)
    ensures m.With(other).Contains(other) && m.With(other).Contains(m)
    ensures forall c: Modifier :: c.Contains(m) && c.Contains(other) ==> c.Contains(m.With(other))
  {
    WithKeepsOther(m, other);
    WithKeepsThis(m, other);
    forall c: Modifier | c.Contains(m) && c.Contains(other) ensures c.Contains(m.With(other)) {
      WithIsLeast(c, m, other);
    }
  }

  /** without() shares no bit with what it removes and keeps every other bit. */
  lemma WithoutIsDifference(m: Modifier, other: Modifier)
    ensures m.Without(other).mask & other.mask == 0
    ensures m.Without(other).mask | (m.mask & other.mask) == m.mask
    ensures m.Contains(m.Without(other))
  {
    WithoutDisjoint(m, other);
    WithoutRecombines(m, other);
    WithoutIsSubset(m, other);
  }

  /** enable(k) sets k's bit and nothing else; disable(k) clears k's bit and nothing else. */
  lemma EnableDisableSingleBit(m: Modifier, key: Key)
    ensures m.Enable(key).mask & key.Bit() == key.Bit()
    ensures m.Enable(key).mask & !key.Bit() == m.mask & !key.Bit()
    ensures m.Disable(key).mask & key.Bit() == 0
    ensures m.Disable(key).mask & !key.Bit() == m.mask & !key.Bit()
    ensures m.Enable(key).Contains(FromKey(key)) && m.Enable(key) == m.With(FromKey(key))
  {
    EnableSetsBit(m, key);
    EnableKeepsOthers(m, key);
    DisableClearsBit(m, key);
    DisableKeepsOthers(m, key);
    EnableIsWith(m, key);
    WithKeepsOther(m, FromKey(key));
  }

  /** disable undoes enable for a key that was not held, and enable undoes disable for one that was. */
  lemma EnableDisableInverse(m: Modifier, key: Key)
    ensures !m.Contains(FromKey(key)) ==> m.Enable(key).Disable(key) == m
    ensures m.Contains(FromKey(key)) ==> m.Disable(key).Enable(key) == m
  {
    if !m.Contains(FromKey(key)) {
      DisableAfterEnable(m, key);
    } else {
      EnableAfterDisable(m, key);
    }
  }

  /** The emptiness predicates agree: none iff value 0, some and any iff non-zero, `!m` iff none. */
  lemma EmptinessPredicates(m: Modifier)
    ensures m.None() <==> m.mask == 0
    ensures m.Some() <==> !m.None()
    ensures m.Any() <==> m.Some()
    ensures Not(m) <==> m.None()
  {
  }

  /** operator+ of two keys is the modifier holding exactly those two keys. */
  lemma PlusIsUnion(a: Key, b: Key)
    ensures Plus(a, b) == FromKey(a).With(FromKey(b))
    ensures Plus(a, b).Contains(FromKey(a)) && Plus(a, b).Contains(FromKey(b))
  {
    WithKeepsThis(FromKey(a), FromKey(b));
    WithKeepsOther(FromKey(a), FromKey(b));
  }

  /** shift(), alt(), control() and meta() hold exactly when the modifier contains that key. */
  lemma KeyPredicates(m: Modifier, key: Key)
    ensures m.HasKey(key) <==> key != NoKey && m.Contains(FromKey(key))
  {}

  /** The largest mask the four keys can form. */
  const AllKeys: bv32 := 15

  /**
   * makeVirtualTerminalParam: the CSI parameter for a function key with
   * modifiers, `1 + value()`. The sum is taken in `unsigned`, so it wraps to 0
   * for the all-ones mask before it is widened to size_t.
   */
  function MakeVirtualTerminalParam(m: Modifier): (r: nat)
    ensures r < 0x1_0000_0000
    ensures m.Value() as int < 0xFFFF_FFFF ==> r == 1 + m.Value() as int && r >= 1
    ensures m.Value() as int == 0xFFFF_FFFF ==> r == 0
  {
    var sum := 1 + m.Value() as int;
    if sum == 0x1_0000_0000 then 0 else sum
  }

  /** Over the four keys the parameter lies in 1..16, with 1 for no modifier. */
  lemma VirtualTerminalParamRange(m: Modifier)
    ensures m.mask & !AllKeys == 0 ==> 1 <= MakeVirtualTerminalParam(m) <= 16
    ensures m.None() ==> MakeVirtualTerminalParam(m) == 1
  {
    if m.mask & !AllKeys == 0 {
      FourBitsBound(m);
    }
  }

  lemma MaskAsIntRoundTrip(x: bv32) ensures (x as int) as bv32 == x {}

  lemma MaskAsIntInjective(x: bv32, y: bv32)
    requires x as int == y as int
    ensures x == y
  {
    MaskAsIntRoundTrip(x);
    MaskAsIntRoundTrip(y);
  }

  /** Different modifiers therefore give different parameters. */
  lemma VirtualTerminalParamInjective(m: Modifier, n: Modifier)
    ensures MakeVirtualTerminalParam(m) == MakeVirtualTerminalParam(n) <==> m == n
  {
    var a, b := m.mask as int, n.mask as int;
    if MakeVirtualTerminalParam(m) == MakeVirtualTerminalParam(n) {
      assert a == b by {
        if a < 0xFFFF_FFFF && b < 0xFFFF_FFFF {
          assert 1 + a == 1 + b;
        }
      }
      MaskAsIntInjective(m.mask, n.mask);
    }
  }

  // ---------------------------------------------------------------------------
  // The Modifier formatter
  // ---------------------------------------------------------------------------

  /** The formatter's `advance`: appends `text` if `cond`, after a ',' unless the string is empty. */
  function Advance(s: string, cond: bool, text: string): string {
    if !cond then s
    else if s == [] then text
    else s + "," + text
  }

  /** fmt::formatter<Modifier>: Alt, Shift, Control, Meta for the keys held; "None" if none is. */
  function FormatModifier(m: Modifier): string {
    FormatFlags(m.HasAlt(), m.HasShift(), m.HasControl(), m.HasMeta())
  }

  /** The formatter's body over the four key tests. */
  function FormatFlags(alt: bool, shift: bool, control: bool, meta: bool): string {
    var s := Advance(Advance(Advance(Advance("", alt, "Alt"), shift, "Shift"), control, "Control"), meta, "Meta");
    if s == [] then "None" else s
  }

  /** The names of the keys held, in the formatter's order. */
  function KeyNames(m: Modifier): seq<string> {
    FlagNames(m.HasAlt(), m.HasShift(), m.HasControl(), m.HasMeta())
  }

  function FlagNames(alt: bool, shift: bool, control: bool, meta: bool): seq<string> {
    (if alt then ["Alt"] else []) + (if shift then ["Shift"] else [])
    + (if control then ["Control"] else []) + (if meta then ["Meta"] else [])
  }

  /** Names joined by ','. */
  function JoinComma(names: seq<string>): string {
    if names == [] then ""
    else if |names| == 1 then names[0]
    else JoinComma(names[..|names| - 1]) + "," + names[|names| - 1]
  }

  lemma AdvanceAppends(names: seq<string>, cond: bool, text: string)
    requires text != [] && (names != [] ==> names[0] != [])
    ensures Advance(JoinComma(names), cond, text) == JoinComma(names + (if cond then [text] else []))
  {
    if cond {
      var ext := names + [text];
      assert ext[..|ext| - 1] == names;
      if names != [] {
        JoinCommaNonEmpty(names);
      }
    } else {
      assert names + [] == names;
    }
  }

  lemma JoinCommaNonEmpty(names: seq<string>)
    requires names != [] && names[0] != []
    ensures JoinComma(names) != []
  {
  }

  /**
   * The formatter writes the names of the keys held, comma-separated, in the
   * order Alt, Shift, Control, Meta; with no key held it writes "None".
   */
  lemma FormatModifierListsKeys(m: Modifier)
    ensures FormatModifier(m) == if KeyNames(m) == [] then "None" else JoinComma(KeyNames(m))
    ensures FormatModifier(m) == "None" <==> !m.HasAlt() && !m.HasShift() && !m.HasControl() && !m.HasMeta()
  {
    FormatFlagsListsNames(m.HasAlt(), m.HasShift(), m.HasControl(), m.HasMeta());
  }

  lemma FormatFlagsListsNames(alt: bool, shift: bool, control: bool, meta: bool)
    ensures FormatFlags(alt, shift, control, meta)
      == if FlagNames(alt, shift, control, meta) == [] then "None" else JoinComma(FlagNames(alt, shift, control, meta))
    ensures FormatFlags(alt, shift, control, meta) == "None" <==> !alt && !shift && !control && !meta
  {
    var names := FlagNames(alt, shift, control, meta);
    AdvanceChain(alt, shift, control, meta);
    if names != [] {
      JoinCommaNonEmpty(names);
      JoinCommaStartsWithFirst(names);
      assert names[0] in {"Alt", "Shift", "Control", "Meta"};
      assert names[0][0] != 'N';
      assert JoinComma(names)[0] != 'N';
    }
  }

  /** The formatter's four `advance` steps join the names of the keys held. */
  lemma AdvanceChain(alt: bool, shift: bool, control: bool, meta: bool)
    ensures Advance(Advance(Advance(Advance("", alt, "Alt"), shift, "Shift"), control, "Control"), meta, "Meta")
      == JoinComma(FlagNames(alt, shift, control, meta))
  {
    var n1: seq<string> := if alt then ["Alt"] else [];
    var n2 := n1 + (if shift then ["Shift"] else []);
    var n3 := n2 + (if control then ["Control"] else []);
    assert Advance("", alt, "Alt") == JoinComma(n1);
    AdvanceAppends(n1, shift, "Shift");
    AdvanceAppends(n2, control, "Control");
    AdvanceAppends(n3, meta, "Meta");
  }

  lemma {:induction false} JoinCommaStartsWithFirst(names: seq<string>)
    requires names != []
    ensures |JoinComma(names)| >= |names[0]| && JoinComma(names)[..|names[0]|] == names[0]
  {
    if |names| > 1 {
      var init := names[..|names| - 1];
      JoinCommaStartsWithFirst(init);
      assert init[0] == names[0];
    }
  }

  // ---------------------------------------------------------------------------
  // InputGenerator: key modes and the pending-output window
  // ---------------------------------------------------------------------------

  /** KeyMode of the cursor and numpad keys. */
  datatype KeyMode = Normal | Application

  class InputGenerator {
    var cursorKeysMode: KeyMode
    var numpadKeysMode: KeyMode
    /** `_pendingSequence`: output generated and not yet fully consumed. */
    var pendingSequence: seq<char>
    /** `_consumedBytes`: how much of the pending output the reader already took. */
    var consumedBytes: int

    /** The consumed count stays inside the buffer and reaches its end only when both are reset. */
    ghost predicate Valid()
      reads this
    {
      0 <= consumedBytes <= |pendingSequence|
      && (consumedBytes == |pendingSequence| ==> consumedBytes == 0)
    }

    /** The field initialisers. */
    constructor ()
      ensures Valid()
      ensures cursorKeysMode == Normal && numpadKeysMode == Normal
      ensures pendingSequence == [] && consumedBytes == 0
    {
      cursorKeysMode, numpadKeysMode := Normal, Normal;
      pendingSequence, consumedBytes := [], 0;
    }

    predicate NormalCursorKeys() reads this { cursorKeysMode == Normal }
    predicate ApplicationCursorKeys() reads this { !NormalCursorKeys() }
    predicate NumericKeypad() reads this { numpadKeysMode == Normal }
    predicate ApplicationKeypad() reads this { !NumericKeypad() }

    /** Exactly one of each pair holds, and the application form means the Application mode. */
    lemma KeyModesComplementary()
      ensures NormalCursorKeys() != ApplicationCursorKeys()
      ensures NumericKeypad() != ApplicationKeypad()
      ensures ApplicationCursorKeys() <==> cursorKeysMode == Application
      ensures ApplicationKeypad() <==> numpadKeysMode == Application
    {
    }

    /** peek(): the part of the pending output not yet consumed. */
    function Peek(): (r: seq<char>)
      requires Valid()
      reads this
      ensures |r| == |pendingSequence| - consumedBytes
      ensures pendingSequence == pendingSequence[..consumedBytes] + r
    {
      pendingSequence[consumedBytes..]
    }

    /**
     * consume(n): marks the next `n` bytes as taken; once everything has
     * been taken the buffer is cleared and the count returns to 0.
     */
    method Consume(n: int)
      requires Valid() && 0 <= n <= |Peek()|
      modifies this`pendingSequence, this`consumedBytes
      ensures Valid()
      ensures Peek() == old(Peek())[n..]
      ensures old(consumedBytes) + n == |old(pendingSequence)| ==> pendingSequence == [] && consumedBytes == 0
      ensures old(consumedBytes) + n < |old(pendingSequence)| ==>
        pendingSequence == old(pendingSequence) && consumedBytes == old(consumedBytes) + n
    {
      consumedBytes := consumedBytes + n;
      if consumedBytes == |pendingSequence| {
        consumedBytes := 0;
        pendingSequence := [];
      }
    }
  }
}
