# etherkey GTK client — a Dafny model of its input-to-protocol core

The etherkey GTK client (`gtk-kvm-client/ether-key-client.py`) lets one computer
drive the keyboard and mouse of another through a microcontroller that poses
as a USB keyboard and mouse. The client grabs local key and button events and
writes them to the microcontroller's serial port as a line protocol:
`send <keys>`, `mouse-button-press <n>`, and so on. Every line ends in the
CTRL-M byte. The session opens with a CTRL-Q `1` reset.

This project models the deterministic part of that client:

- `Control` — `_ctrl`, the control byte of a letter. `_ctrl('q')` is proved
  equal to the firmware's `PREFIX` constant.
- `Utf8` and `Decimal` — the two encodings the client leans on:
  `str.encode()` (UTF-8) and `str()` of an integer. Each has a decoder that
  is proved to be its inverse.
- `Wire` — the `EthClient` senders as pure functions from a command to bytes.
  Also the reset sequence, and a parser for lines and whole sessions. The
  parser provably reads back every command whose argument holds no carriage
  return.
- `KeyTables` — the `modifier_keys` and `special_keys` tables, as lookups by
  hardware keycode.
- `Keyboard` — the widget's state `(grabbed, held modifier keycodes)` and the
  handlers for key press, key release, button press/release and window
  mapping. A handler either yields the next state and the command it sends,
  or the Python exception it raises.
- `EventLoop` — a run of events through the handlers. A raising handler
  leaves the state as it was, as the GTK bindings catch and print its
  exception.

Python iterates a set of modifier symbols in an order that depends on string
hashing. `encode_modifiers` therefore takes that order as an input
(`SymbolOrder`, any arrangement of `^+!#`). Every contract about the modifier
prefix says only "each held symbol exactly once, in some order". The lemma
`Keyboard.ListsArePermutations` shows that this pins the prefix down up to
order.

Some consequences of the code that the contracts spell out:

- Releasing a modifier that is not held raises `KeyError` from `set.remove`
  (gtk-kvm-client/ether-key-client.py:266).
- Right control toggles the grab on press (231-234). Its release is ignored
  (260-262).
- A button is sent as `' ' + str(button - 1)` (224, 227), so the line carries
  two spaces between the verb and the number.

## Model

| member | source | states |
|---|---|---|
| Control.Ctrl | gtk-kvm-client/ether-key-client.py:22-24 | `_ctrl(c)` yields one byte exactly when the upper-cased character is at or above `@`, and that byte plus 64 is the upper-cased character; below `@`, `chr` raises `ValueError` |
| Control.CtrlLetter | gtk-kvm-client/ether-key-client.py:22-24 | every letter, in either case, yields its alphabet position 1..26 |
| Control.CtrlLetterInjective | gtk-kvm-client/ether-key-client.py:22-24 | two letters share a control byte only if they are the same letter ignoring case |
| Control.CtrlConstants | etherkey/usb-keyboard.h:11 | `_ctrl('q')` is the single byte 17, the firmware's `PREFIX`, and `_ctrl('m')` is the single byte 0x0D |
| Wire.ControlBytes | gtk-kvm-client/ether-key-client.py:33-38 | the session reset is `_ctrl('q')` followed by the encoding of `1`, it starts with the firmware prefix, and the line terminator is `_ctrl('m')` |
| Wire.Frame | gtk-kvm-client/ether-key-client.py:36-54 | a sender writes the verb's ASCII bytes, one space, the UTF-8 of the argument unchanged, then one 0x0D, and nothing else |
| Wire.FrameTerminatorOnlyAtEnd | gtk-kvm-client/ether-key-client.py:36-54 | a line holds no 0x0D before its last byte exactly when the argument has no carriage return |
| Wire.ParseFrameRoundTrip | gtk-kvm-client/ether-key-client.py:36-54 | reading a written line back gives the same verb and argument |
| Wire.ParseLinesRoundTrip | gtk-kvm-client/ether-key-client.py:36-54 | a sequence of lines splits at the terminators back into the commands, in order, when no argument has a carriage return |
| Wire.SessionRoundTrip | gtk-kvm-client/ether-key-client.py:33-54 | the reset followed by the lines of a session reads back as the commands sent, when no argument holds a carriage return |
| Utf8.DecodeEncode | gtk-kvm-client/ether-key-client.py:38 | the UTF-8 written by `.encode()` decodes back to the argument string |
| Utf8.EncodeInjective | gtk-kvm-client/ether-key-client.py:38 | two different arguments never produce the same bytes |
| Utf8.EncodeAsciiByte | gtk-kvm-client/ether-key-client.py:38 | an ASCII byte such as the terminator occurs in an encoded argument exactly when its character occurs in the argument |
| Decimal.IntToDecimal | gtk-kvm-client/ether-key-client.py:224 | `str(n)` is a numeral with no leading zero, preceded by `-` exactly when `n` is negative; `-0` never occurs |
| Decimal.ParseIntToDecimal | gtk-kvm-client/ether-key-client.py:224 | `str(n)` parses back to `n` for every integer, negative ones included |
| Decimal.DecimalOfParseInt | gtk-kvm-client/ether-key-client.py:224 | the parser accepts only what `str()` prints: whatever reads as `n` is `str(n)` |
| Decimal.IntToDecimalInjective | gtk-kvm-client/ether-key-client.py:224 | different button numbers never print the same |
| KeyTables.ModifierSymbol | gtk-kvm-client/ether-key-client.py:94-104 | each of the nine modifier keycodes maps to its symbol, always one of `^+!#`, with right control mapping to `^`; every other keycode maps to none |
| KeyTables.SpecialToken | gtk-kvm-client/ether-key-client.py:105-137 | each of the thirty special keycodes maps to its brace-wrapped token, the listed-twice 67 once as in a dict; no modifier keycode has a token |
| KeyTables.TablesWellFormed | gtk-kvm-client/ether-key-client.py:94-137 | no keycode is both a modifier and a special key, right control is a modifier, every modifier maps to one of `^+!#`, every special token is a brace-wrapped name |
| Keyboard.EncodeModifiers | gtk-kvm-client/ether-key-client.py:183-186 | the prefix lists each symbol of the held modifiers exactly once and nothing else, so it is at most four characters |
| Keyboard.ListsArePermutations | gtk-kvm-client/ether-key-client.py:183-186 | any two prefixes for the same held modifiers are permutations of each other and have the same length |
| Keyboard.HeldSymbolsBounded | gtk-kvm-client/ether-key-client.py:94-104 | the held modifiers only ever contribute symbols from `^+!#` |
| Keyboard.DropAll | gtk-kvm-client/ether-key-client.py:253 | `replace('+', '')` keeps exactly the characters other than `+`, keeps them distinct, and changes nothing when there is no `+` |
| Keyboard.DropAllCounts | gtk-kvm-client/ether-key-client.py:253 | `replace(x, '')` removes every `x` and keeps every other character as often as it occurs |
| Keyboard.DropAllKeepsOrder | gtk-kvm-client/ether-key-client.py:253 | the characters `replace` keeps stay in their original order |
| Keyboard.KeyChar | gtk-kvm-client/ether-key-client.py:251 | `chr(keyval)` gives the character with that code point; above U+10FFFF it raises `ValueError`, and a surrogate fails with `UnicodeEncodeError` when the line is encoded |
| Keyboard.ToggleGrab | gtk-kvm-client/ether-key-client.py:268-269 | toggling flips the grab flag and keeps the held modifiers |
| Keyboard.Press | gtk-kvm-client/ether-key-client.py:230-257 | right control flips the grab and sends nothing; another modifier is added to the held set and sends nothing; a special key sends the held symbols then its token; a reserved character sends the held symbols other than `+`, then `{c}`; any other key sends the held symbols then the character; only `chr`/encoding failures raise, and no send changes the state |
| Keyboard.Release | gtk-kvm-client/ether-key-client.py:259-266 | right control and non-modifiers change nothing; a held modifier is removed alone; releasing a modifier that is not held raises `KeyError` for that keycode |
| Keyboard.ButtonArg | gtk-kvm-client/ether-key-client.py:223-227 | the button argument is an ASCII space followed by the decimal form of `button - 1`, which the strict parser reads back |
| Keyboard.ButtonArgUnique | gtk-kvm-client/ether-key-client.py:223-227 | any space-led string whose number reads as `button - 1` is exactly the argument sent, so no other spelling (`007`, `-0`) can stand for it |
| Keyboard.ButtonLineTwoSpaces | gtk-kvm-client/ether-key-client.py:223-227 | a button line on the wire has exactly two spaces between the verb and the number |
| Keyboard.Step | gtk-kvm-client/ether-key-client.py:223-297 | each handler keeps the held set to modifiers other than right control; only right control presses and window mapping move the grab flag; only key events raise; key presses send `send` lines and buttons send their own verb without changing state |
| Keyboard.GrabPressTwice | gtk-kvm-client/ether-key-client.py:231-234 | two right-control presses restore the original state and send nothing |
| Keyboard.ModifierPressRelease | gtk-kvm-client/ether-key-client.py:236-266 | pressing then releasing a modifier that was not held restores the original state |
| Keyboard.StepIgnoresGrab | gtk-kvm-client/ether-key-client.py:230-266 | whether a handler raises, what it sends and how it changes the held set never depend on the grab flag |
| Keyboard.ControlEscape | gtk-kvm-client/ether-key-client.py:244-248 | with left control held, Escape sends exactly `^{Escape}` and leaves the state alone, whatever the set order |
| Keyboard.ShiftedReserved | gtk-kvm-client/ether-key-client.py:250-254 | with shift as the only modifier held, any reserved character is sent alone as `{c}` and the state is unchanged |
| Keyboard.ShiftBang | gtk-kvm-client/ether-key-client.py:250-254 | with left shift held, a key yielding `!` sends exactly `{!}`: the shift symbol is dropped |
| EventLoop.Run | gtk-kvm-client/ether-key-client.py:300-303 | the main loop hands each event to its handler in order; a raising handler is printed and dropped, each event writes at most one line, and every button event writes exactly one |
| EventLoop.RunValid | gtk-kvm-client/ether-key-client.py:236-266 | over any run of events, only modifiers other than right control are ever held |
| EventLoop.RunGrabParity | gtk-kvm-client/ether-key-client.py:268-297 | after any run, the grab flag is flipped exactly when right-control presses plus window mappings are odd in number |
| EventLoop.RunModifierHeld | gtk-kvm-client/ether-key-client.py:236-266 | after any run, a modifier is held exactly when its last press-or-release was a press, or, if untouched, when it was held at the start |
| EventLoop.RunFromInitial | gtk-kvm-client/ether-key-client.py:230-297 | from the widget's initial state, after any run only valid modifiers are held, the grab flag is the parity of the toggling events, and a modifier is held exactly when it was last pressed |
| EventLoop.RunKeysSendOnly | gtk-kvm-client/ether-key-client.py:230-266 | a run of key events writes only `send` lines |

## Left out

- The serial port is not modelled: `serial.Serial` construction, baud rate, timeout and the actual writes. A session is the byte sequence the client would write.
- `on_motion_notify` is not modelled. It rests on float event coordinates, Python's round-half-even and screen-geometry queries for the pointer warp.
- `on_scroll` is not modelled. It formats a float `delta_y` with `.0f`. The `mouse-move` and `mouse-wheel` verbs are still framed by `Wire.Frame`.
- The GTK, Cairo and Pango parts are not modelled: widget setup, drawing, the seat grab and ungrab, status text and debug prints. Of `toggle_grab` only the flag flip is kept.
- `press_key` and `release_key` call an undefined `url_get` and are never used.
- The firmware is not part of this model. Its header is used only for the `PREFIX` constant.
- Control.Ctrl: defined only for ASCII characters. On other input, `str.upper()` applies Unicode case mapping, which can even yield several characters. The client only calls `_ctrl` with `q` and `m`.
- Wire.ParseLinesRoundTrip: needs arguments free of carriage returns. The line protocol cannot tell such a byte from the terminator. A key whose keyval is 13 would produce one; X keysyms for ordinary keys never do.
- Wire.SessionRoundTrip: has the same condition as `Wire.ParseLinesRoundTrip`, for the same reason.
- Exceptions raised in a handler: `EventLoop.Run` treats one raised in a handler as printed and dropped, which is how the Python GTK bindings handle it. A raising handler changes no state before it raises.
