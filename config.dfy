/**
 * The string and integer helpers of src/contour/Config.cpp that turn
 * configuration values, already read out of the YAML document, into
 * terminal settings.
 */
module Config {
  import opened Wrappers
  import Functions
  import InputGenerator

  // ---------------------------------------------------------------------------
  // Letter case
  // ---------------------------------------------------------------------------

  /** ASCII lower-casing of one character; every other character is kept. */
  function LowerChar(c: char): char {
    if 'A' <= c <= 'Z' then (c as int + 32) as char else c
  }

  function UpperChar(c: char): char {
    if 'a' <= c <= 'z' then (c as int - 32) as char else c
  }

  /** crispy::toLower and crispy::toUpper, character by character. */
  function ToLower(s: string): (r: string)
    ensures |r| == |s|
    ensures forall i :: 0 <= i < |s| ==> r[i] == LowerChar(s[i])
  {
    if s == [] then [] else [LowerChar(s[0])] + ToLower(s[1..])
  }

  function ToUpper(s: string): (r: string)
    ensures |r| == |s|
    ensures forall i :: 0 <= i < |s| ==> r[i] == UpperChar(s[i])
  {
    if s == [] then [] else [UpperChar(s[0])] + ToUpper(s[1..])
  }

  /** Lower-casing forgets the letter case: a string and its upper-cased form lower-case alike, and back. */
  lemma CaseFolding(s: string)
    ensures ToLower(ToUpper(s)) == ToLower(s)
    ensures ToUpper(ToLower(s)) == ToUpper(s)
  {
    assert forall i :: 0 <= i < |s| ==> LowerChar(UpperChar(s[i])) == LowerChar(s[i]);
    assert forall i :: 0 <= i < |s| ==> UpperChar(LowerChar(s[i])) == UpperChar(s[i]);
  }

  // ---------------------------------------------------------------------------
  // toPermission
  // ---------------------------------------------------------------------------

  datatype Permission = Allow | Deny | Ask

  /** The lower-case spelling of each permission. */
  function PermissionName(p: Permission): string {
    match p
    case Allow => "allow"
    case Deny => "deny"
    case Ask => "ask"
  }

  /** toPermission: "allow", "deny" or "ask" in any letter case; anything else has no permission. */
  function ToPermission(value: string): Option<Permission> {
    var lowerValue := ToLower(value);
    if lowerValue == "allow" then Some(Allow)
    else if lowerValue == "deny" then Some(Deny)
    else if lowerValue == "ask" then Some(Ask)
    else None
  }

  /**
   * A value names a permission exactly when its lower-cased form is that
   * permission's name, and the letter case of the value does not matter.
   */
  lemma ToPermissionNames(value: string, p: Permission)
    ensures ToPermission(value) == Some(p) <==> ToLower(value) == PermissionName(p)
    ensures ToPermission(value) == None <==> ToLower(value) !in {"allow", "deny", "ask"}
    ensures ToPermission(ToUpper(value)) == ToPermission(value)
  {
    CaseFolding(value);
  }

  /** Every permission's name parses back to it. */
  lemma ToPermissionRoundTrip(p: Permission)
    ensures ToPermission(PermissionName(p)) == Some(p)
  {
    match p
    case Allow => assert ToLower("allow") == "allow";
    case Deny => assert ToLower("deny") == "deny";
    case Ask => assert ToLower("ask") == "ask";
  }

  // ---------------------------------------------------------------------------
  // parseModifierKey
  // ---------------------------------------------------------------------------

  /** The upper-case spelling of each modifier key. */
  function ModifierKeyName(key: InputGenerator.Key): string {
    match key
    case NoKey => "NONE"
    case Shift => "SHIFT"
    case Alt => "ALT"
    case Control => "CONTROL"
    case Meta => "META"
  }

  /** parseModifierKey: ALT, CONTROL, SHIFT or META in any letter case. */
  function ParseModifierKey(key: string): Option<InputGenerator.Key> {
    var upperKey := ToUpper(key);
    if upperKey == "ALT" then Some(InputGenerator.Alt)
    else if upperKey == "CONTROL" then Some(InputGenerator.Control)
    else if upperKey == "SHIFT" then Some(InputGenerator.Shift)
    else if upperKey == "META" then Some(InputGenerator.Meta)
    else None
  }

  /**
   * A string names a modifier key exactly when its upper-cased form is that
   * key's name; "none" names no key, and the letter case does not matter.
   */
  lemma ParseModifierKeyNames(s: string, key: InputGenerator.Key)
    ensures ParseModifierKey(s) == Some(key) <==> key != InputGenerator.NoKey && ToUpper(s) == ModifierKeyName(key)
    ensures ParseModifierKey(ToLower(s)) == ParseModifierKey(s)
  {
    CaseFolding(s);
  }

  /** Every key but NoKey parses back from its name. */
  lemma ParseModifierKeyRoundTrip(key: InputGenerator.Key)
    requires key != InputGenerator.NoKey
    ensures ParseModifierKey(ModifierKeyName(key)) == Some(key)
  {
    UpperUnchanged(ModifierKeyName(key));
  }

  /** A string without lower-case letters is its own upper-cased form. */
  lemma UpperUnchanged(s: string)
    requires forall i :: 0 <= i < |s| ==> !('a' <= s[i] <= 'z')
    ensures ToUpper(s) == s
  {
  }

  // ---------------------------------------------------------------------------
  // parseKey
  // ---------------------------------------------------------------------------

  /** terminal::Key: the named keys a key binding may use. */
  datatype NamedKey =
    | F1 | F2 | F3 | F4 | F5 | F6 | F7 | F8 | F9 | F10 | F11 | F12
    | DownArrow | LeftArrow | RightArrow | UpArrow
    | Insert | Delete | Home | End | PageUp | PageDown
    | Numpad_NumLock | Numpad_Divide | Numpad_Multiply | Numpad_Subtract | Numpad_CapsLock
    | Numpad_Add | Numpad_Decimal | Numpad_Enter | Numpad_Equal
    | Numpad_0 | Numpad_1 | Numpad_2 | Numpad_3 | Numpad_4
    | Numpad_5 | Numpad_6 | Numpad_7 | Numpad_8 | Numpad_9

  /** parseKey's table of names, in its order. */
  const KeyMappings: seq<(string, NamedKey)> := [
    ("F1", F1), ("F2", F2), ("F3", F3), ("F4", F4), ("F5", F5), ("F6", F6),
    ("F7", F7), ("F8", F8), ("F9", F9), ("F10", F10), ("F11", F11), ("F12", F12),
    ("DownArrow", DownArrow), ("LeftArrow", LeftArrow), ("RightArrow", RightArrow), ("UpArrow", UpArrow),
    ("Insert", NamedKey.Insert), ("Delete", Delete), ("Home", Home), ("End", End),
    ("PageUp", PageUp), ("PageDown", PageDown),
    ("Numpad_NumLock", Numpad_NumLock), ("Numpad_Divide", Numpad_Divide),
    ("Numpad_Multiply", Numpad_Multiply), ("Numpad_Subtract", Numpad_Subtract),
    ("Numpad_CapsLock", Numpad_CapsLock), ("Numpad_Add", Numpad_Add),
    ("Numpad_Decimal", Numpad_Decimal), ("Numpad_Enter", Numpad_Enter), ("Numpad_Equal", Numpad_Equal),
    ("Numpad_0", Numpad_0), ("Numpad_1", Numpad_1), ("Numpad_2", Numpad_2), ("Numpad_3", Numpad_3),
    ("Numpad_4", Numpad_4), ("Numpad_5", Numpad_5), ("Numpad_6", Numpad_6), ("Numpad_7", Numpad_7),
    ("Numpad_8", Numpad_8), ("Numpad_9", Numpad_9)
  ]

  /** The first entry of `mappings` whose lower-cased name is `lowerName`. */
  function FindKey(mappings: seq<(string, NamedKey)>, lowerName: string): Option<NamedKey> {
    if mappings == [] then None
    else if lowerName == ToLower(mappings[0].0) then Some(mappings[0].1)
    else FindKey(mappings[1..], lowerName)
  }

  /** parseKey: the table entry whose name equals `name` ignoring letter case. */
  function ParseKey(name: string): Option<NamedKey> {
    FindKey(KeyMappings, ToLower(name))
  }

  /** The lookup finds an entry with that name, and finds none only when no entry has it. */
  lemma {:induction false} FindKeySound(mappings: seq<(string, NamedKey)>, lowerName: string)
    ensures FindKey(mappings, lowerName).Some? ==>
      exists i :: 0 <= i < |mappings| && ToLower(mappings[i].0) == lowerName
              && mappings[i].1 == FindKey(mappings, lowerName).value
    ensures FindKey(mappings, lowerName).None? ==>
      forall i :: 0 <= i < |mappings| ==> ToLower(mappings[i].0) != lowerName
  {
    if mappings != [] && lowerName != ToLower(mappings[0].0) {
      FindKeySound(mappings[1..], lowerName);
      if FindKey(mappings, lowerName).Some? {
        var j :| 0 <= j < |mappings[1..]| && ToLower(mappings[1..][j].0) == lowerName
                && mappings[1..][j].1 == FindKey(mappings, lowerName).value;
        assert mappings[j + 1] == mappings[1..][j];
      } else {
        forall i | 0 <= i < |mappings| ensures ToLower(mappings[i].0) != lowerName {
          if i > 0 { assert mappings[i] == mappings[1..][i - 1]; }
        }
      }
    }
  }

  /**
   * parseKey agrees with the table: a result is the key of an entry whose
   * name matches ignoring letter case, and no result means no entry matches.
   * The letter case of the name does not matter.
   */
  lemma ParseKeyFollowsTable(name: string)
    ensures ParseKey(name).Some? ==>
      exists i :: 0 <= i < |KeyMappings| && ToLower(KeyMappings[i].0) == ToLower(name)
              && KeyMappings[i].1 == ParseKey(name).value
    ensures ParseKey(name).None? ==>
      forall i :: 0 <= i < |KeyMappings| ==> ToLower(KeyMappings[i].0) != ToLower(name)
    ensures ParseKey(ToUpper(name)) == ParseKey(name)
  {
    FindKeySound(KeyMappings, ToLower(name));
    CaseFolding(name);
  }

  // ---------------------------------------------------------------------------
  // stringToVTType
  // ---------------------------------------------------------------------------

  /** The spelling of each terminal type. */
  function VTTypeName(t: Functions.VTType): string {
    match t
    case VT100 => "VT100"
    case VT220 => "VT220"
    case VT240 => "VT240"
    case VT330 => "VT330"
    case VT340 => "VT340"
    case VT320 => "VT320"
    case VT420 => "VT420"
    case VT510 => "VT510"
    case VT520 => "VT520"
    case VT525 => "VT525"
  }

  /** stringToVTType's table, in its order. */
  const VTTypeMappings: seq<Functions.VTType> :=
    [Functions.VT100, Functions.VT220, Functions.VT240, Functions.VT330, Functions.VT340,
     Functions.VT320, Functions.VT420, Functions.VT510, Functions.VT520, Functions.VT525]

  function FindVTType(mappings: seq<Functions.VTType>, value: string): Option<Functions.VTType> {
    if mappings == [] then None
    else if VTTypeName(mappings[0]) == value then Some(mappings[0])
    else FindVTType(mappings[1..], value)
  }

  /** stringToVTType: the first table entry spelled exactly `value`. */
  function StringToVTType(value: string): Option<Functions.VTType> {
    FindVTType(VTTypeMappings, value)
  }

  /** The names are pairwise different. */
  lemma VTTypeNamesDistinct(a: Functions.VTType, b: Functions.VTType)
    ensures VTTypeName(a) == VTTypeName(b) ==> a == b
  {
    if VTTypeName(a) == VTTypeName(b) {
      assert VTTypeName(a)[2..] == VTTypeName(b)[2..];
    }
  }

  lemma {:induction false} FindVTTypeExact(mappings: seq<Functions.VTType>, value: string, t: Functions.VTType)
    requires t in mappings
    ensures FindVTType(mappings, value) == Some(t) <==> value == VTTypeName(t)
  {
    if mappings[0] != t {
      VTTypeNamesDistinct(mappings[0], t);
      FindVTTypeExact(mappings[1..], value, t);
    } else if value != VTTypeName(t) {
      FindVTTypeMember(mappings[1..], value);
      if FindVTType(mappings, value) == Some(t) {
        VTTypeNamesDistinct(t, t);
      }
    }
  }

  lemma {:induction false} FindVTTypeMember(mappings: seq<Functions.VTType>, value: string)
    ensures FindVTType(mappings, value).Some? ==> VTTypeName(FindVTType(mappings, value).value) == value
  {
    if mappings != [] && VTTypeName(mappings[0]) != value {
      FindVTTypeMember(mappings[1..], value);
    }
  }

  /** stringToVTType gives `t` exactly for `t`'s own spelling, letter case included. */
  lemma StringToVTTypeExact(value: string, t: Functions.VTType)
    ensures StringToVTType(value) == Some(t) <==> value == VTTypeName(t)
  {
    assert t in VTTypeMappings by {
      match t
      case VT100 => assert VTTypeMappings[0] == t;
      case VT220 => assert VTTypeMappings[1] == t;
      case VT240 => assert VTTypeMappings[2] == t;
      case VT330 => assert VTTypeMappings[3] == t;
      case VT340 => assert VTTypeMappings[4] == t;
      case VT320 => assert VTTypeMappings[5] == t;
      case VT420 => assert VTTypeMappings[6] == t;
      case VT510 => assert VTTypeMappings[7] == t;
      case VT520 => assert VTTypeMappings[8] == t;
      case VT525 => assert VTTypeMappings[9] == t;
    }
    FindVTTypeExact(VTTypeMappings, value, t);
  }

  /** A string that spells no type gives no type (the lower-case "vt100", say). */
  lemma StringToVTTypeNone(value: string)
    ensures StringToVTType(value) == None <==> forall t: Functions.VTType :: value != VTTypeName(t)
  {
    FindVTTypeMember(VTTypeMappings, value);
    forall t: Functions.VTType ensures StringToVTType(value) == Some(t) <==> value == VTTypeName(t) {
      StringToVTTypeExact(value, t);
    }
  }

  // ---------------------------------------------------------------------------
  // sanitizeRange
  // ---------------------------------------------------------------------------

  /** std::clamp(value, lo, hi). */
  function Clamp(value: int, lo: int, hi: int): (r: int)
    requires lo <= hi
    ensures lo <= r <= hi
    ensures lo <= value <= hi ==> r == value
    ensures value < lo ==> r == lo
    ensures value > hi ==> r == hi
  {
    if value < lo then lo else if hi < value then hi else value
  }

  /**
   * sanitizeRange: reports whether `value` lies in [lo, hi]; the value it
   * leaves behind is the old one when it does and the clamped one when not.
   */
  method SanitizeRange(value: int, lo: int, hi: int) returns (inRange: bool, sanitized: int)
    requires lo <= hi
    ensures inRange <==> lo <= value <= hi
    ensures inRange ==> sanitized == value
    ensures !inRange ==> sanitized == Clamp(value, lo, hi) && sanitized != value
    ensures lo <= sanitized <= hi
  {
    if lo <= value && value <= hi {
      return true, value;
    }
    sanitized := Clamp(value, lo, hi);
    inRange := false;
  }

  // ---------------------------------------------------------------------------
  // MatchModes and parseMatchModes
  // ---------------------------------------------------------------------------

  /** MatchModes::Flag. */
  datatype MatchFlag = AlternateScreen | AppCursor | AppKeypad | Insert | Select | Search | Trace

  /**
   * MatchModes: for each flag it mentions, whether the binding requires the
   * flag on (enable) or off (disable); an absent flag does not matter.
   */
  type MatchModes = map<MatchFlag, bool>

  function Enable(modes: MatchModes, flag: MatchFlag): MatchModes { modes[flag := true] }
  function Disable(modes: MatchModes, flag: MatchFlag): MatchModes { modes[flag := false] }

  /** crispy::split(s, sep): the pieces between separators, empty ones included. */
  function SplitOn(s: string, sep: char): (parts: seq<string>)
    ensures forall i :: 0 <= i < |parts| ==> sep !in parts[i]
  {
    if s == [] then [] else SplitFrom(s, sep, 0)
  }

  function SplitFrom(s: string, sep: char, start: nat): (parts: seq<string>)
    requires start <= |s|
    requires sep !in s[..start]
    ensures |parts| >= 1
    ensures forall i :: 0 <= i < |parts| ==> sep !in parts[i]
    decreases |s|, |s| - start
  {
    if start == |s| then [s]
    else if s[start] == sep then [s[..start]] + SplitFrom(s[start + 1..], sep, 0)
    else
      assert s[..start + 1] == s[..start] + [s[start]];
      SplitFrom(s, sep, start + 1)
  }

  /** The pieces put back together with one separator between neighbours. */
  function JoinOn(parts: seq<string>, sep: char): string {
    if parts == [] then []
    else if |parts| == 1 then parts[0]
    else parts[0] + [sep] + JoinOn(parts[1..], sep)
  }

  /** Joining the pieces of `s` from `start` on gives `s` back. */
  lemma {:induction false} SplitFromJoin(s: string, sep: char, start: nat)
    requires start <= |s|
    requires sep !in s[..start]
    ensures JoinOn(SplitFrom(s, sep, start), sep) == s
    decreases |s|, |s| - start
  {
    if start == |s| {
    } else if s[start] == sep {
      var rest := SplitFrom(s[start + 1..], sep, 0);
      SplitFromJoin(s[start + 1..], sep, 0);
      assert SplitFrom(s, sep, start) == [s[..start]] + rest;
      assert |rest| >= 1;
      assert s == s[..start] + [sep] + s[start + 1..];
    } else {
      assert s[..start + 1] == s[..start] + [s[start]];
      SplitFromJoin(s, sep, start + 1);
    }
  }

  /** crispy::split loses nothing: the pieces joined by the separator are the string. */
  lemma SplitOnJoin(s: string, sep: char)
    ensures JoinOn(SplitOn(s, sep), sep) == s
  {
    if s != [] {
      SplitFromJoin(s, sep, 0);
    }
  }

  /** The step behind SplitOnOfJoin: a split resumed after `prefix` of the first piece. */
  lemma {:induction false} JoinSplitFrom(parts: seq<string>, sep: char, prefix: string)
    requires |parts| >= 1
    requires forall i :: 0 <= i < |parts| ==> sep !in parts[i]
    requires sep !in prefix
    ensures SplitFrom(prefix + JoinOn(parts, sep), sep, |prefix|) == [prefix + parts[0]] + parts[1..]
    decreases |parts|, |parts[0]|
  {
    var s := prefix + JoinOn(parts, sep);
    assert s[..|prefix|] == prefix;
    if parts[0] != [] {
      var c := parts[0][0];
      var tail := [parts[0][1..]] + parts[1..];
      assert tail[1..] == parts[1..];
      assert JoinOn(tail, sep) == parts[0][1..] + JoinOn(parts, sep)[|parts[0]|..] by {
        if |parts| > 1 { assert JoinOn(parts, sep) == parts[0] + [sep] + JoinOn(parts[1..], sep); }
      }
      assert forall i :: 0 <= i < |tail| ==> sep !in tail[i] by {
        forall i | 0 <= i < |tail| ensures sep !in tail[i] {
          if i == 0 { assert forall x :: x in parts[0][1..] ==> x in parts[0]; } else { assert tail[i] == parts[i]; }
        }
      }
      assert c == parts[0][0] && parts[0] == [c] + parts[0][1..];
      JoinSplitFrom(tail, sep, prefix + [c]);
      assert prefix + [c] + JoinOn(tail, sep) == s;
      assert s[|prefix|] == c;
      assert sep != c;
      assert s[..|prefix| + 1] == s[..|prefix|] + [s[|prefix|]];
      assert prefix + [c] + parts[0][1..] == prefix + parts[0];
    } else if |parts| == 1 {
      assert s == prefix;
    } else {
      assert JoinOn(parts, sep) == [sep] + JoinOn(parts[1..], sep);
      assert s[|prefix|] == sep;
      assert s[|prefix| + 1..] == JoinOn(parts[1..], sep);
      assert forall i :: 0 <= i < |parts[1..]| ==> sep !in parts[1..][i] by {
        forall i | 0 <= i < |parts[1..]| ensures sep !in parts[1..][i] { assert parts[1..][i] == parts[i + 1]; }
      }
      JoinSplitFrom(parts[1..], sep, []);
      assert [] + JoinOn(parts[1..], sep) == JoinOn(parts[1..], sep);
      var empty: string := [];
      assert empty + parts[1..][0] == parts[1..][0];
      assert [parts[1..][0]] + parts[1..][1..] == parts[1..];
      assert prefix + parts[0] == prefix;
    }
  }

  /**
   * And conversely: pieces free of the separator come back from the split of
   * their join, unless the only piece is empty (which splits into no piece).
   */
  lemma SplitOnOfJoin(parts: seq<string>, sep: char)
    requires |parts| >= 1 && parts != [[]]
    requires forall i :: 0 <= i < |parts| ==> sep !in parts[i]
    ensures SplitOn(JoinOn(parts, sep), sep) == parts
  {
    JoinSplitFrom(parts, sep, []);
    assert [] + JoinOn(parts, sep) == JoinOn(parts, sep);
    var empty: string := [];
    assert empty + parts[0] == parts[0];
    assert [parts[0]] + parts[1..] == parts;
  }

  /** The flag an upper-cased mode name selects. */
  function ModeFlag(upperArg: string): Option<MatchFlag> {
    if upperArg == "ALT" then Some(AlternateScreen)
    else if upperArg == "APPCURSOR" then Some(AppCursor)
    else if upperArg == "APPKEYPAD" then Some(AppKeypad)
    else if upperArg == "INSERT" then Some(MatchFlag.Insert)
    else if upperArg == "SELECT" then Some(Select)
    else if upperArg == "SEARCH" then Some(Search)
    else if upperArg == "TRACE" then Some(Trace)
    else None
  }

  /** One `|`-separated piece: empty pieces and unknown names change nothing; `~` disables. */
  function ApplyModeArg(modes: MatchModes, arg: string): MatchModes {
    if arg == [] then modes
    else
      match ArgFlag(arg)
      case None => modes
      case Some(flag) => if arg[0] == '~' then Disable(modes, flag) else Enable(modes, flag)
  }

  /** The pieces applied in order. */
  function ApplyModeArgs(modes: MatchModes, args: seq<string>): MatchModes {
    if args == [] then modes
    else ApplyModeArg(ApplyModeArgs(modes, args[..|args| - 1]), args[|args| - 1])
  }

  /** parseMatchModes on a scalar: every piece of `modeStr` is applied to an empty MatchModes. */
  method ParseMatchModes(modeStr: string) returns (matchModes: MatchModes)
    ensures matchModes == ApplyModeArgs(map[], SplitOn(modeStr, '|'))
  {
    matchModes := map[];
    var args := SplitOn(modeStr, '|');
    var i := 0;
    while i < |args|
      invariant 0 <= i <= |args|
      invariant matchModes == ApplyModeArgs(map[], args[..i])
    {
      assert args[..i + 1][..i] == args[..i];
      matchModes := ParseModeArg(matchModes, args[i]);
      i := i + 1;
    }
    assert args[..|args|] == args;
  }

  /** The body of parseMatchModes' loop for one piece. */
  method ParseModeArg(modes: MatchModes, piece: string) returns (matchModes: MatchModes)
    ensures matchModes == ApplyModeArg(modes, piece)
  {
    matchModes := modes;
    var arg := piece;
    if arg == [] {
      return;
    }
    var negate := false;
    if arg[0] == '~' {
      negate := true;
      arg := arg[1..];
    }
    var flag := ModeFlag(ToUpper(arg));
    assert flag == ArgFlag(piece);
    if flag.None? {
      return;
    }
    if negate {
      matchModes := Disable(matchModes, flag.value);
    } else {
      matchModes := Enable(matchModes, flag.value);
    }
  }

  /** The flag a piece names, if any; its `~` is not part of the name. */
  function ArgFlag(arg: string): Option<MatchFlag> {
    if arg == [] then None
    else ModeFlag(ToUpper(if arg[0] == '~' then arg[1..] else arg))
  }

  /** A piece that names a flag sets it, to false after `~` and to true otherwise, and touches no other flag. */
  lemma ApplyModeArgSets(modes: MatchModes, arg: string)
    ensures ArgFlag(arg).None? ==> ApplyModeArg(modes, arg) == modes
    ensures ArgFlag(arg).Some? ==>
      ApplyModeArg(modes, arg) == modes[ArgFlag(arg).value := !(arg[0] == '~')]
  {
  }

  /** A flag no piece names keeps whatever it had before. */
  lemma {:induction false} UnnamedFlagUnchanged(modes: MatchModes, args: seq<string>, flag: MatchFlag)
    requires forall i :: 0 <= i < |args| ==> ArgFlag(args[i]) != Some(flag)
    ensures (flag in ApplyModeArgs(modes, args)) == (flag in modes)
    ensures flag in modes ==> ApplyModeArgs(modes, args)[flag] == modes[flag]
  {
    if args != [] {
      var init := args[..|args| - 1];
      assert forall i :: 0 <= i < |init| ==> init[i] == args[i];
      UnnamedFlagUnchanged(modes, init, flag);
      ApplyModeArgSets(ApplyModeArgs(modes, init), args[|args| - 1]);
    }
  }

  /** The last piece that names a flag decides it: enabled unless that piece starts with `~`. */
  lemma {:induction false} LastMentionWins(modes: MatchModes, args: seq<string>, k: nat, flag: MatchFlag)
    requires k < |args| && ArgFlag(args[k]) == Some(flag)
    requires forall i :: k < i < |args| ==> ArgFlag(args[i]) != Some(flag)
    ensures flag in ApplyModeArgs(modes, args)
    ensures ApplyModeArgs(modes, args)[flag] == !(args[k][0] == '~')
  {
    var init := args[..|args| - 1];
    ApplyModeArgSets(ApplyModeArgs(modes, init), args[|args| - 1]);
    if |args| > k + 1 {
      assert forall i :: k < i < |init| ==> init[i] == args[i];
      LastMentionWins(modes, init, k, flag);
    }
  }

  /** Applying two lists of pieces one after the other is applying their concatenation. */
  lemma {:induction false} ApplyModeArgsSplit(modes: MatchModes, a: seq<string>, b: seq<string>)
    ensures ApplyModeArgs(modes, a + b) == ApplyModeArgs(ApplyModeArgs(modes, a), b)
  {
    if b == [] {
      assert a + b == a;
    } else {
      var b' := b[..|b| - 1];
      assert (a + b)[..|a + b| - 1] == a + b';
      ApplyModeArgsSplit(modes, a, b');
    }
  }

  // ---------------------------------------------------------------------------
  // appendOrCreateBinding
  // ---------------------------------------------------------------------------

  /** InputBinding<Input, ActionList>: the trigger and the actions it runs. */
  datatype Binding<Input, Action> = Binding(
    modes: MatchModes, modifier: InputGenerator.Modifier, input: Input, actions: seq<Action>)

  /**
   * appendOrCreateBinding: when some binding matches the trigger, the action
   * is appended to the first one that does; otherwise one new binding with
   * just that action goes at the end. `matches` stands for `match(binding,
   * modes, modifier, input)`, which src/vtbackend/InputBinding.h defines.
   */
  method AppendOrCreateBinding<Input, Action>(bindings: seq<Binding<Input, Action>>,
                                              matches: Binding<Input, Action> -> bool,
                                              modes: MatchModes, modifier: InputGenerator.Modifier,
                                              input: Input, action: Action)
    returns (result: seq<Binding<Input, Action>>)
    ensures (exists i :: 0 <= i < |bindings| && matches(bindings[i])) ==>
      exists k :: 0 <= k < |bindings| && matches(bindings[k])
        && (forall j :: 0 <= j < k ==> !matches(bindings[j]))
        && result == bindings[k := bindings[k].(actions := bindings[k].actions + [action])]
    ensures (forall i :: 0 <= i < |bindings| ==> !matches(bindings[i])) ==>
      result == bindings + [Binding(modes, modifier, input, [action])]
  {
    var i := 0;
    while i < |bindings|
      invariant 0 <= i <= |bindings|
      invariant forall j :: 0 <= j < i ==> !matches(bindings[j])
    {
      if matches(bindings[i]) {
        var binding := bindings[i];
        result := bindings[i := binding.(actions := binding.actions + [action])];
        return;
      }
      i := i + 1;
    }
    result := bindings + [Binding(modes, modifier, input, [action])];
  }

  // ---------------------------------------------------------------------------
  // Font features
  // ---------------------------------------------------------------------------

  /**
   * The bytes of a YAML scalar: `std::string` holds the UTF-8 encoding, and
   * `size()` and indexing count bytes, not characters.
   */
  type Byte = b: int | 0 <= b < 0x100

  const PlusSign: Byte := 0x2B
  const MinusSign: Byte := 0x2D

  /** font_feature: a four-byte OpenType tag and whether it is switched on. */
  datatype FontFeature = FontFeature(tag: seq<Byte>, enabled: bool)

  /** The tag and switch a feature string denotes: a leading '+' or '-' is the switch, otherwise on. */
  function FeatureTag(value: seq<Byte>): (seq<Byte>, bool) {
    if value != [] && value[0] == PlusSign then (value[1..], true)
    else if value != [] && value[0] == MinusSign then (value[1..], false)
    else (value, true)
  }

  /** One feature string: a feature when the tag has exactly four bytes, otherwise rejected. */
  function ParseFontFeature(value: seq<Byte>): Option<FontFeature> {
    var (tag, enabled) := FeatureTag(value);
    if |tag| != 4 then None else Some(FontFeature(tag, enabled))
  }

  /** The bytes a feature is written as in the configuration. */
  function FormatFontFeature(f: FontFeature): seq<Byte> {
    [if f.enabled then PlusSign else MinusSign] + f.tag
  }

  /**
   * A feature string is accepted exactly when its tag has four bytes;
   * '-' switches the feature off and anything else leaves it on.
   */
  lemma ParseFontFeatureCases(value: seq<Byte>)
    ensures ParseFontFeature(value).Some? <==> |FeatureTag(value).0| == 4
    ensures ParseFontFeature(value).Some? ==>
      ParseFontFeature(value).value.enabled == !(value != [] && value[0] == MinusSign)
    ensures |value| == 4 && value[0] != PlusSign && value[0] != MinusSign ==> ParseFontFeature(value) == Some(FontFeature(value, true))
  {
  }

  /**
   * The length is counted in bytes: "éab", three characters whose UTF-8
   * encoding is four bytes, is accepted as a tag.
   */
  lemma ParseFontFeatureCountsBytes()
    ensures ParseFontFeature([0xC3, 0xA9, 0x61, 0x62]) == Some(FontFeature([0xC3, 0xA9, 0x61, 0x62], true))
  {
  }

  /** Writing a four-byte feature with its sign and parsing it gives it back. */
  lemma FontFeatureRoundTrip(f: FontFeature)
    requires |f.tag| == 4
    ensures ParseFontFeature(FormatFontFeature(f)) == Some(f)
  {
    assert FormatFontFeature(f)[1..] == f.tag;
  }

  /** The features kept from a list of strings, in order. */
  function ParsedFeatures(values: seq<seq<Byte>>): (features: seq<FontFeature>)
    ensures |features| <= |values|
  {
    if values == [] then []
    else
      var init := ParsedFeatures(values[..|values| - 1]);
      match ParseFontFeature(values[|values| - 1])
      case None => init
      case Some(f) => init + [f]
  }

  /** The `features` loop of softLoadFont: each well-formed entry is appended to the store, the others skipped. */
  method LoadFontFeatures(store: seq<FontFeature>, values: seq<seq<Byte>>) returns (features: seq<FontFeature>)
    ensures features == store + ParsedFeatures(values)
  {
    features := store;
    var i := 0;
    while i < |values|
      invariant 0 <= i <= |values|
      invariant features == store + ParsedFeatures(values[..i])
    {
      assert values[..i + 1][..i] == values[..i];
      var parsed := ParseFontFeature(values[i]);
      if parsed.Some? {
        features := features + [parsed.value];
      }
      i := i + 1;
    }
    assert values[..|values|] == values;
  }

  /** Every kept feature has a four-byte tag, and a list of well-formed entries loses none. */
  lemma {:induction false} ParsedFeaturesWellFormed(values: seq<seq<Byte>>)
    ensures forall i :: 0 <= i < |ParsedFeatures(values)| ==> |ParsedFeatures(values)[i].tag| == 4
    ensures (forall i :: 0 <= i < |values| ==> ParseFontFeature(values[i]).Some?) ==>
      |ParsedFeatures(values)| == |values|
  {
    if values != [] {
      var init := values[..|values| - 1];
      ParsedFeaturesWellFormed(init);
      assert forall i :: 0 <= i < |init| ==> init[i] == values[i];
    }
  }

  // ---------------------------------------------------------------------------
  // Value normalisations
  // ---------------------------------------------------------------------------

  /** The history limit: unbounded, or a number of lines. */
  datatype MaxHistoryLineCount = Infinite | Lines(count: nat)

  /** history.limit: -1 is unbounded, a negative number below it is 0 lines, anything else is kept. */
  function HistoryLimit(value: int): MaxHistoryLineCount {
    if value == -1 then Infinite
    else if value > -1 then Lines(value)
    else Lines(0)
  }

  /** The number the configuration writes for a history limit. */
  function HistoryLimitValue(limit: MaxHistoryLineCount): int {
    match limit
    case Infinite => -1
    case Lines(n) => n
  }

  /**
   * Every value from -1 up is read back unchanged and every one below is
   * read as 0; reading a limit's own value gives the limit again.
   */
  lemma HistoryLimitRoundTrip(value: int, limit: MaxHistoryLineCount)
    ensures value >= -1 ==> HistoryLimitValue(HistoryLimit(value)) == value
    ensures value < -1 ==> HistoryLimit(value) == Lines(0)
    ensures HistoryLimit(HistoryLimitValue(limit)) == limit
    ensures HistoryLimit(value) == Infinite <==> value == -1
  {
  }

  /** The bell setting: empty keeps the old one; "off" and "default" are kept; anything else is a file. */
  function BellSetting(current: string, value: string): (bell: string) {
    if value == [] then current
    else if value != "off" && value != "default" then "file:" + value
    else value
  }

  /** A set bell is either a keyword or "file:" followed by exactly the configured value. */
  lemma BellSettingCases(current: string, value: string)
    ensures value == [] ==> BellSetting(current, value) == current
    ensures value in {"off", "default"} ==> BellSetting(current, value) == value
    ensures value != [] && value !in {"off", "default"} ==>
      |BellSetting(current, value)| == |value| + 5 && BellSetting(current, value)[..5] == "file:"
      && BellSetting(current, value)[5..] == value
  {
  }

  /** The smallest pty buffer the configuration accepts, 256 KiB. */
  const MinPtyBufferSize := 1024 * 256

  /** pty_buffer_size: values below 256 KiB are raised to 256 KiB. */
  function PtyBufferSize(value: int): int {
    if value < MinPtyBufferSize then MinPtyBufferSize else value
  }

  /** The result is the larger of the value and the floor, so applying it twice changes nothing. */
  lemma PtyBufferSizeFloor(value: int)
    ensures PtyBufferSize(value) >= MinPtyBufferSize
    ensures value >= MinPtyBufferSize ==> PtyBufferSize(value) == value
    ensures PtyBufferSize(value) == value || PtyBufferSize(value) == MinPtyBufferSize
    ensures PtyBufferSize(PtyBufferSize(value)) == PtyBufferSize(value)
  {
  }
}
