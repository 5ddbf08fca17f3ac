/**
  The `_ctrl` helper (gtk-kvm-client/ether-key-client.py:22-24): the control
  character of a letter, `chr(ord(ch.upper()) - ord('@'))`, UTF-8 encoded.
 */
module Control {
  import opened Results
  import opened Utf8

  /** `PREFIX` of the firmware header: the byte that switches it to command mode. */
  const FirmwarePrefix: byte := 17

  /** ASCII upper-casing, which is what `str.upper()` does on ASCII input. */
  function AsciiUpper(c: char): (u: char)
    requires (c as int) < 0x80
    ensures (u as int) < 0x80
    ensures 'a' <= c <= 'z' ==> 'A' <= u <= 'Z' && u as int - 'A' as int == c as int - 'a' as int
    ensures !('a' <= c <= 'z') ==> u == c
  {
    if 'a' <= c <= 'z' then (c as int - 32) as char else c
  }

  predicate IsLetter(c: char) {
    'a' <= c <= 'z' || 'A' <= c <= 'Z'
  }

  /** `_ctrl(ch)` for an ASCII character: the bytes of the character 64 code
      points below its upper-case form, or the `ValueError` `chr` raises when
      that would be negative. */
  function Ctrl(c: char): (r: Result<seq<byte>, Exception>)
    requires (c as int) < 0x80
    ensures r.Ok? <==> '@' <= AsciiUpper(c)
    ensures r.Err? ==> r.error == ValueError
    ensures r.Ok? ==> |r.value| == 1 && r.value[0] + '@' as int == AsciiUpper(c) as int
  {
    var code := AsciiUpper(c) as int - '@' as int;
    if code < 0 then Err(ValueError) else Ok(Encode([code as char]))
  }

  /** Every letter, in either case, has a control byte in 1..26, the
      letter's position in the alphabet. */
  lemma CtrlLetter(c: char)
    requires IsLetter(c)
    ensures Ctrl(c).Ok? && 1 <= Ctrl(c).value[0] <= 26
    ensures Ctrl(c).value[0] == AsciiUpper(c) as int - 'A' as int + 1
  {
  }

  /** Distinct letters (ignoring case) have distinct control bytes. */
  lemma CtrlLetterInjective(a: char, b: char)
    requires IsLetter(a) && IsLetter(b)
    requires Ctrl(a) == Ctrl(b)
    ensures AsciiUpper(a) == AsciiUpper(b)
  {
  }

  /** The two control bytes the client uses: CTRL-Q, which equals the
      firmware's command-mode prefix, and CTRL-M, a carriage return. */
  lemma CtrlConstants()
    ensures Ctrl('q') == Ok([FirmwarePrefix]) && FirmwarePrefix == 0x11
    ensures Ctrl('m') == Ok([0x0D])
  {
    var q, m := Ctrl('q').value, Ctrl('m').value;
    assert AsciiUpper('q') == 'Q' && AsciiUpper('m') == 'M';
    assert |q| == 1 && q[0] == 0x11;
    assert q == [0x11];
    assert |m| == 1 && m[0] == 0x0D;
    assert m == [0x0D];
  }
}
