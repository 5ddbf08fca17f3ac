/**
  The input state machine of the widget (gtk-kvm-client/ether-key-client.py:85-297):
  the grab flag, the set of held modifier keycodes, and the command each
  key or button event sends. GTK events are abstracted to the fields the
  handlers read: hardware keycode and keyval for keys, the button number
  for buttons.
 */
module Keyboard {
  import opened Results
  import opened KeyTables
  import opened Wire
  import Decimal
  import Utf8

  datatype State = State(grabbed: bool, mods: set<nat>)

  /** The state right after the widget is built: not grabbed, nothing held
      (gtk-kvm-client/ether-key-client.py:85, 140). */
  const Initial: State := State(false, {})

  /** Only modifier keycodes other than right control are ever held: right
      control is caught before the modifier table is consulted. */
  predicate Valid(s: State) {
    forall k :: k in s.mods ==> IsModifier(k) && k != RightControl
  }

  datatype Event =
    | KeyPress(keycode: nat, keyval: nat)
    | KeyRelease(keycode: nat, keyval: nat)
    | ButtonPress(button: nat)
    | ButtonRelease(button: nat)
    | WindowMapped

  /** What one handler call does when it does not raise: the next state and
      the command it sent, if any. */
  datatype Transition = Transition(state: State, sent: Option<Command>)

  predicate Distinct(p: string) {
    forall i, j :: 0 <= i < j < |p| ==> p[i] != p[j]
  }

  /** The order in which a Python set of the four symbols happens to be
      iterated. It depends on string hashing, so it is an input here. */
  predicate IsSymbolOrder(o: string) {
    |o| == 4 && Distinct(o) && forall c :: c in o <==> c in Symbols
  }

  type SymbolOrder = o: string | IsSymbolOrder(o) witness "^+!#"

  /** The symbols contributed by a set of held keycodes. */
  function HeldSymbols(mods: set<nat>): set<char> {
    set k | k in mods && IsModifier(k) :: ModifierSymbol(k).value
  }

  /** `p` lists each symbol of `syms` exactly once, in some order. */
  predicate Lists(p: string, syms: set<char>) {
    Distinct(p) && forall c :: c in p <==> c in syms
  }

  /** The characters of `o` that are in `keep`, in the order of `o`. */
  function Keep(o: string, keep: set<char>): (r: string)
    ensures forall c :: c in r <==> c in o && c in keep
    ensures Distinct(o) ==> Distinct(r)
    ensures |r| <= |o|
    decreases |o|
  {
    if |o| == 0 then []
    else
      var rest := Keep(o[1..], keep);
      assert Distinct(o) ==> o[0] !in o[1..];
      (if o[0] in keep then [o[0]] else []) + rest
  }

  /** `encode_modifiers`: each held modifier's symbol once, in set order. */
  function EncodeModifiers(mods: set<nat>, order: SymbolOrder): (p: string)
    ensures Lists(p, HeldSymbols(mods))
    ensures |p| <= 4
  {
    HeldSymbolsBounded(mods);
    Keep(order, HeldSymbols(mods))
  }

  /** `r` is `s` with some characters left out, the rest kept in order. */
  predicate IsSubsequence(r: string, s: string)
    decreases |s|
  {
    if |r| == 0 then true
    else if |s| == 0 then false
    else if r[0] == s[0] then IsSubsequence(r[1..], s[1..])
    else IsSubsequence(r, s[1..])
  }

  /** `s.replace(x, '')`. */
  function DropAll(s: string, x: char): (r: string)
    ensures forall c :: c in r <==> c in s && c != x
    ensures Distinct(s) ==> Distinct(r)
    ensures x !in s ==> r == s
    decreases |s|
  {
    if |s| == 0 then []
    else
      var rest := DropAll(s[1..], x);
      assert Distinct(s) ==> s[0] !in s[1..];
      assert s == [s[0]] + s[1..];
      (if s[0] == x then [] else [s[0]]) + rest
  }

  /** `replace` removes every `x` and nothing else: each other character
      stays as often as it occurs. */
  lemma {:induction false} DropAllCounts(s: string, x: char)
    ensures multiset(DropAll(s, x)) == multiset(s)[x := 0]
    decreases |s|
  {
    if |s| > 0 {
      DropAllCounts(s[1..], x);
      assert s == [s[0]] + s[1..];
      assert multiset(s) == multiset{s[0]} + multiset(s[1..]);
    }
  }

  /** ... and the characters it keeps stay in their original order. */
  lemma {:induction false} DropAllKeepsOrder(s: string, x: char)
    ensures IsSubsequence(DropAll(s, x), s)
    decreases |s|
  {
    if |s| > 0 {
      var rest := DropAll(s[1..], x);
      DropAllKeepsOrder(s[1..], x);
      if s[0] == x {
        assert DropAll(s, x) == rest;
        assert |rest| > 0 ==> rest[0] in rest && rest[0] != s[0];
      } else {
        assert ([s[0]] + rest)[1..] == rest;
      }
    }
  }

  /** `chr(keyval)` as the key handler uses it: `chr` raises `ValueError`
      above U+10FFFF, and a surrogate, which `chr` accepts, makes the
      UTF-8 encoding in `send` raise before anything is written. */
  function KeyChar(keyval: nat): (r: Result<char, Exception>)
    ensures r.Ok? <==> keyval <= 0x10FFFF && !(0xD800 <= keyval < 0xE000)
    ensures r.Ok? ==> r.value as int == keyval
    ensures r.Err? ==> (r.error == ValueError <==> keyval > 0x10FFFF)
  {
    if keyval > 0x10FFFF then Err(ValueError)
    else if 0xD800 <= keyval < 0xE000 then Err(UnicodeEncodeError)
    else Ok(keyval as char)
  }

  /** `toggle_grab`, without the seat grab and status text. */
  function ToggleGrab(s: State): (t: State)
    ensures t.grabbed != s.grabbed && t.mods == s.mods
  {
    s.(grabbed := !s.grabbed)
  }

  /** `do_key_press_event`. */
  function Press(s: State, keycode: nat, keyval: nat, order: SymbolOrder): (r: Result<Transition, Exception>)
    // right control flips the grab and nothing else
    ensures keycode == RightControl ==> r == Ok(Transition(s.(grabbed := !s.grabbed), None))
    // another modifier is recorded as held and nothing is sent
    ensures keycode != RightControl && IsModifier(keycode) ==>
      r == Ok(Transition(s.(mods := s.mods + {keycode}), None))
    // a named key sends the held modifiers' symbols, then its token
    ensures !IsModifier(keycode) && SpecialToken(keycode).Some? ==>
      && r.Ok? && r.value.state == s && r.value.sent.Some? && r.value.sent.value.verb == Send
      && var a, t := r.value.sent.value.arg, SpecialToken(keycode).value;
         |a| >= |t| && a[|a| - |t|..] == t && Lists(a[..|a| - |t|], HeldSymbols(s.mods))
    // any other key depends on its character, and fails only where chr or the encoding does
    ensures !IsModifier(keycode) && SpecialToken(keycode).None? ==>
      && (r.Ok? <==> KeyChar(keyval).Ok?)
      && (r.Err? ==> r.error == KeyChar(keyval).error)
    // a reserved character is sent in braces, after the symbols other than shift's
    ensures !IsModifier(keycode) && SpecialToken(keycode).None? && r.Ok? ==>
      && r.value.state == s && r.value.sent.Some? && r.value.sent.value.verb == Send
      && var a, key := r.value.sent.value.arg, keyval as char;
         if key in Reserved then
           |a| >= 3 && a[|a| - 3..] == ['{', key, '}'] && Lists(a[..|a| - 3], HeldSymbols(s.mods) - {'+'})
         else
           |a| >= 1 && a[|a| - 1] == key && Lists(a[..|a| - 1], HeldSymbols(s.mods))
  {
    if keycode == RightControl then Ok(Transition(ToggleGrab(s), None))
    else if IsModifier(keycode) then Ok(Transition(s.(mods := s.mods + {keycode}), None))
    else
      var prefix := EncodeModifiers(s.mods, order);
      assert Lists(prefix, HeldSymbols(s.mods));
      if SpecialToken(keycode).Some? then
        var arg := prefix + SpecialToken(keycode).value;
        assert arg[..|prefix|] == prefix;
        Ok(Transition(s, Some(Command(Send, arg))))
      else
        match KeyChar(keyval)
        case Err(e) => Err(e)
        case Ok(key) =>
          if key in Reserved then
            var kept := DropAll(prefix, '+');
            assert Lists(kept, HeldSymbols(s.mods) - {'+'});
            var arg := kept + ['{', key, '}'];
            assert arg[..|arg| - 3] == kept && arg[|arg| - 3..] == ['{', key, '}'];
            Ok(Transition(s, Some(Command(Send, arg))))
          else
            var arg := prefix + [key];
            assert arg[..|arg| - 1] == prefix;
            Ok(Transition(s, Some(Command(Send, arg))))
  }

  /** `do_key_release_event`: right control and non-modifiers are ignored;
      a modifier is removed with `set.remove`, which raises `KeyError` when
      it is not held. */
  function Release(s: State, keycode: nat): (r: Result<Transition, Exception>)
    ensures keycode == RightControl || !IsModifier(keycode) ==> r == Ok(Transition(s, None))
    ensures keycode != RightControl && IsModifier(keycode) ==>
      && (r.Ok? <==> keycode in s.mods)
      && (r.Ok? ==> r.value == Transition(State(s.grabbed, s.mods - {keycode}), None))
      && (r.Err? ==> r.error == KeyError(keycode))
  {
    if keycode == RightControl then Ok(Transition(s, None))
    else if IsModifier(keycode) then
      if keycode in s.mods then Ok(Transition(s.(mods := s.mods - {keycode}), None))
      else Err(KeyError(keycode))
    else Ok(Transition(s, None))
  }

  /** The argument of `on_button_press`/`on_button_release`: a space, then
      the zero-based button number, so the line carries two spaces. */
  function ButtonArg(button: nat): (a: string)
    ensures |a| >= 2 && a[0] == ' ' && a[1] != ' ' && Utf8.IsAscii(a)
    ensures Decimal.ParseInt(a[1..]) == Some(button - 1)
  {
    var digits := Decimal.IntToDecimal(button - 1);
    Decimal.ParseIntToDecimal(button - 1);
    assert (" " + digits)[1..] == digits;
    " " + digits
  }

  /** The argument is the only one of its shape: any space-led string that
      reads back as `button - 1` is exactly `' ' + str(button - 1)`. */
  lemma ButtonArgUnique(button: nat, a: string)
    requires |a| >= 1 && a[0] == ' ' && Decimal.ParseInt(a[1..]) == Some(button - 1)
    ensures a == ButtonArg(button)
  {
    Decimal.DecimalOfParseInt(a[1..], button - 1);
    assert a == " " + a[1..];
  }

  /** One event handled by the widget. */
  function Step(s: State, e: Event, order: SymbolOrder): (r: Result<Transition, Exception>)
    ensures Valid(s) && r.Ok? ==> Valid(r.value.state)
    // only right control and mapping the window move the grab flag
    ensures r.Ok? ==> (r.value.state.grabbed != s.grabbed <==>
      (e.KeyPress? && e.keycode == RightControl) || e.WindowMapped?)
    // only key events can raise, and a raising handler has changed nothing
    ensures r.Err? ==> e.KeyPress? || e.KeyRelease?
    // the verb of whatever is sent matches the event
    ensures r.Ok? && r.value.sent.Some? ==>
      match e
      case KeyPress(_, _) => r.value.sent.value.verb == Send
      case ButtonPress(b) => r.value.sent.value == Command(MouseButtonPress, ButtonArg(b))
      case ButtonRelease(b) => r.value.sent.value == Command(MouseButtonRelease, ButtonArg(b))
      case _ => false
    ensures e.ButtonPress? || e.ButtonRelease? ==> r.Ok? && r.value.state == s && r.value.sent.Some?
  {
    match e
    case KeyPress(keycode, keyval) => Press(s, keycode, keyval, order)
    case KeyRelease(keycode, _) => Release(s, keycode)
    case ButtonPress(b) => Ok(Transition(s, Some(Command(MouseButtonPress, ButtonArg(b)))))
    case ButtonRelease(b) => Ok(Transition(s, Some(Command(MouseButtonRelease, ButtonArg(b)))))
    case WindowMapped => Ok(Transition(ToggleGrab(s), None))
  }

  /** Pressing right control twice restores the state and sends nothing. */
  lemma GrabPressTwice(s: State, kv1: nat, kv2: nat, o1: SymbolOrder, o2: SymbolOrder)
    ensures var r1 := Press(s, RightControl, kv1, o1);
      && r1.Ok? && r1.value.sent.None?
      && Press(r1.value.state, RightControl, kv2, o2) == Ok(Transition(s, None))
  {
  }

  /** Pressing then releasing a modifier that was not held restores the
      state, and neither event sends anything. */
  lemma ModifierPressRelease(s: State, k: nat, kv1: nat, kv2: nat, o: SymbolOrder)
    requires IsModifier(k) && k != RightControl && k !in s.mods
    ensures var r1 := Press(s, k, kv1, o);
      && r1.Ok? && r1.value.sent.None? && k in r1.value.state.mods
      && Release(r1.value.state, k) == Ok(Transition(s, None))
  {
    var t := Press(s, k, kv1, o).value.state;
    assert t.mods - {k} == s.mods;
  }

  /** What a handler sends, whether it raises, and how it changes the held
      modifiers never depend on the grab flag. */
  lemma StepIgnoresGrab(s: State, g: bool, e: Event, o: SymbolOrder)
    ensures var r, r' := Step(s, e, o), Step(s.(grabbed := g), e, o);
      && r.Ok? == r'.Ok?
      && (r.Err? ==> r.error == r'.error)
      && (r.Ok? ==> r.value.sent == r'.value.sent && r.value.state.mods == r'.value.state.mods)
  {
  }

  /** A string of distinct characters holds each of them exactly once. */
  lemma {:induction false} DistinctMultiset(p: string)
    requires Distinct(p)
    ensures forall c :: multiset(p)[c] == if c in p then 1 else 0
    decreases |p|
  {
    if |p| > 0 {
      assert p == [p[0]] + p[1..];
      assert Distinct(p[1..]);
      DistinctMultiset(p[1..]);
      assert p[0] !in p[1..];
    }
  }

  /** Two listings of the same symbols differ only in order: the modifier
      prefix is determined up to permutation by the held modifiers. */
  lemma ListsArePermutations(p: string, q: string, syms: set<char>)
    requires Lists(p, syms) && Lists(q, syms)
    ensures multiset(p) == multiset(q)
    ensures |p| == |q|
  {
    DistinctMultiset(p);
    DistinctMultiset(q);
    assert forall c :: multiset(p)[c] == multiset(q)[c];
    assert multiset(p) == multiset(q);
    assert |p| == |multiset(p)|;
  }

  /** Only the four symbols can occur in a prefix, each once, so it is at
      most four characters long whatever the held set. */
  lemma HeldSymbolsBounded(mods: set<nat>)
    ensures HeldSymbols(mods) <= Symbols
  {
    forall k | k in mods && IsModifier(k) ensures ModifierSymbol(k).value in Symbols {
      TablesWellFormed(k);
    }
  }

  /** A button line has two spaces between the verb and the number: the
      sender's own, then the one the argument starts with. */
  lemma ButtonLineTwoSpaces(v: Verb, b: nat)
    requires v == MouseButtonPress || v == MouseButtonRelease
    ensures var r, n := Frame(Command(v, ButtonArg(b))), |VerbName(v)|;
      r[n] == Space && r[n + 1] == Space && r[n + 2] != Space
  {
    var a := ButtonArg(b);
    var r, n := Frame(Command(v, a)), |VerbName(v)|;
    Utf8.EncodeAscii(a);
    assert r[n + 1..|r| - 1] == Utf8.Encode(a);
    assert r[n + 1] == Utf8.Encode(a)[0];
    assert r[n + 2] == Utf8.Encode(a)[1];
  }

  /** With left control held, Escape sends `^{Escape}`, whatever the set order. */
  lemma ControlEscape(o: SymbolOrder)
    ensures var s := State(false, {37});
      Press(s, 9, 0, o) == Ok(Transition(s, Some(Command(Send, "^{Escape}"))))
  {
    var p := EncodeModifiers({37}, o);
    assert HeldSymbols({37}) == {'^'};
    ListsArePermutations(p, "^", {'^'});
    assert p == "^";
    assert !IsModifier(9) && SpecialToken(9) == Some("{Escape}");
    assert p + "{Escape}" == "^{Escape}";
  }

  /** A listing of no symbols is empty. */
  lemma ListsNothing(p: string)
    requires Lists(p, {})
    ensures p == []
  {
    ListsArePermutations(p, [], {});
  }

  /** When shift is the only modifier held, a reserved character goes out
      alone in braces: the shift symbol is dropped because the character
      already carries it. */
  lemma ShiftedReserved(s: State, keycode: nat, keyval: nat, o: SymbolOrder)
    requires !IsModifier(keycode) && SpecialToken(keycode).None?
    requires KeyChar(keyval).Ok? && KeyChar(keyval).value in Reserved
    requires HeldSymbols(s.mods) <= {'+'}
    ensures Press(s, keycode, keyval, o) ==
      Ok(Transition(s, Some(Command(Send, ['{', KeyChar(keyval).value, '}']))))
  {
    var r := Press(s, keycode, keyval, o);
    var a := r.value.sent.value.arg;
    var kept := a[..|a| - 3];
    assert HeldSymbols(s.mods) - {'+'} == {};
    ListsNothing(kept);
    assert a == kept + a[|a| - 3..];
  }

  /** With left shift held, the key that yields `!` sends `{!}`. */
  lemma ShiftBang(o: SymbolOrder)
    ensures var s := State(false, {50});
      Press(s, 10, '!' as nat, o) == Ok(Transition(s, Some(Command(Send, "{!}"))))
  {
    assert HeldSymbols({50}) == {'+'} by {
      assert ModifierSymbol(50) == Some('+');
    }
    assert ModifierSymbol(10).None? && SpecialToken(10).None?;
    assert KeyChar('!' as nat) == Ok('!');
    assert '!' in Reserved by {
      assert Reserved[5] == '!';
    }
    ShiftedReserved(State(false, {50}), 10, '!' as nat, o);
  }
}
