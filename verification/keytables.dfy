/**
  The constant keycode tables of the widget (gtk-kvm-client/ether-key-client.py:94-137),
  keyed by X11 hardware keycode. Only the wire tokens are kept; the
  human-readable names beside them are used for debug printing only.
 */
module KeyTables {
  import opened Results

  /** Right control: the grab toggle, caught before any table lookup. */
  const RightControl: nat := 105

  /** `modifier_keys`: the symbol each modifier keycode contributes to the
      modifier prefix, or `None` for a keycode that is not a modifier. */
  function ModifierSymbol(keycode: nat): (r: Option<char>)
    ensures r.Some? ==> r.value in Symbols
    ensures keycode == RightControl ==> r == Some('^')
  {
    match keycode
    case 37 => Some('^')    // left control
    case 66 => Some('^')    // caps lock
    case 50 => Some('+')    // left shift
    case 64 => Some('!')    // left alt
    case 133 => Some('#')   // left GUI
    case 105 => Some('^')   // right control
    case 62 => Some('+')    // right shift
    case 108 => Some('!')   // right alt
    case 134 => Some('#')   // right GUI
    case _ => None
  }

  predicate IsModifier(keycode: nat) {
    ModifierSymbol(keycode).Some?
  }

  /** The four modifier symbols: control, shift, alt, GUI. */
  const Symbols: set<char> := {'^', '+', '!', '#'}

  /** `special_keys`: the bracketed token sent for a named key, or `None`.
      The source lists keycode 67 twice with the same token; a dictionary
      keeps one entry. */
  function SpecialToken(keycode: nat): (r: Option<string>)
    ensures r.Some? ==> ModifierSymbol(keycode).None?
    ensures r.Some? ==> |r.value| >= 3 && r.value[0] == '{' && r.value[|r.value| - 1] == '}'
  {
    match keycode
    case 9 => Some("{Escape}")
    case 36 => Some("{Enter}")
    case 22 => Some("{BS}")
    case 23 => Some("{Tab}")
    case 114 => Some("{Right}")
    case 111 => Some("{Up}")
    case 113 => Some("{Left}")
    case 116 => Some("{Down}")
    case 118 => Some("{Insert}")
    case 110 => Some("{Home}")
    case 112 => Some("{PgUp}")
    case 117 => Some("{PgDn}")
    case 115 => Some("{End}")
    case 119 => Some("{Delete}")
    case 85 => Some("{Right}")
    case 80 => Some("{Up}")
    case 83 => Some("{Left}")
    case 88 => Some("{Down}")
    case 67 => Some("{F1}")
    case 68 => Some("{F2}")
    case 69 => Some("{F3}")
    case 70 => Some("{F4}")
    case 71 => Some("{F5}")
    case 72 => Some("{F6}")
    case 73 => Some("{F7}")
    case 74 => Some("{F8}")
    case 75 => Some("{F9}")
    case 76 => Some("{F10}")
    case 95 => Some("{F11}")
    case 96 => Some("{F12}")
    case _ => None
  }

  /** Characters the firmware would read as syntax, so the client sends them
      as `{c}`. */
  const Reserved: string := "+{}[]!@#$%^&*()-_`~'\"<>"

  /** No keycode is both a modifier and a special key, right control is a
      modifier, every modifier maps to one of the four symbols, and every
      special token is a brace-wrapped name. */
  lemma TablesWellFormed(keycode: nat)
    ensures !(IsModifier(keycode) && SpecialToken(keycode).Some?)
    ensures IsModifier(RightControl)
    ensures IsModifier(keycode) ==> ModifierSymbol(keycode).value in Symbols
    ensures SpecialToken(keycode).Some? ==>
      var t := SpecialToken(keycode).value; |t| >= 3 && t[0] == '{' && t[|t| - 1] == '}'
  {
  }
}
