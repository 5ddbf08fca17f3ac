/**
  The serial line protocol of `EthClient` (gtk-kvm-client/ether-key-client.py:26-54):
  a reset on connect, then one line per command, `<verb> <argument>` in
  UTF-8, closed by the CTRL-M byte. The port itself is not modelled: a
  session is the byte sequence the client would write to it.
 */
module Wire {
  import opened Results
  import opened Utf8
  import Control

  /** The five sender methods of `EthClient`. */
  datatype Verb = Send | MouseMove | MouseButtonPress | MouseButtonRelease | MouseWheel

  function VerbName(v: Verb): (name: string)
    ensures 1 <= |name| && IsAscii(name) && ' ' !in name && '\r' !in name
  {
    match v
    case Send => "send"
    case MouseMove => "mouse-move"
    case MouseButtonPress => "mouse-button-press"
    case MouseButtonRelease => "mouse-button-release"
    case MouseWheel => "mouse-wheel"
  }

  function VerbNamed(name: string): (r: Option<Verb>)
    ensures r.Some? ==> VerbName(r.value) == name
  {
    if name == "send" then Some(Send)
    else if name == "mouse-move" then Some(MouseMove)
    else if name == "mouse-button-press" then Some(MouseButtonPress)
    else if name == "mouse-button-release" then Some(MouseButtonRelease)
    else if name == "mouse-wheel" then Some(MouseWheel)
    else None
  }

  /** One call of a sender method with its argument string. */
  datatype Command = Command(verb: Verb, arg: string)

  const Space: byte := 0x20

  /** The byte `_ctrl('m')` that closes every line. */
  const Terminator: byte := 0x0D

  /** What `__init__` writes first: `_ctrl('q')` followed by `1`. */
  const Reset: seq<byte> := [0x11, '1' as int]

  /** The reset and terminator constants are the `_ctrl` values the client
      computes, and the reset opens with the firmware's command prefix. */
  lemma ControlBytes()
    ensures Control.Ctrl('q').Ok? && Reset == Control.Ctrl('q').value + Encode("1")
    ensures Reset[0] == Control.FirmwarePrefix
    ensures Control.Ctrl('m') == Ok([Terminator])
  {
    Control.CtrlConstants();
    EncodeAscii("1");
  }

  /** The bytes one sender call writes: `(verb + ' ' + arg).encode() + _ctrl('m')`. */
  function Frame(c: Command): (r: seq<byte>)
    ensures var n := |VerbName(c.verb)|;
      && |r| == n + 1 + |Encode(c.arg)| + 1
      && (forall i :: 0 <= i < n ==> r[i] == VerbName(c.verb)[i] as int)
      && r[n] == Space
      && r[n + 1 .. |r| - 1] == Encode(c.arg)
      && r[|r| - 1] == Terminator
  {
    var name := VerbName(c.verb);
    EncodeAppend(name + " ", c.arg);
    EncodeAppend(name, " ");
    EncodeAscii(name);
    EncodeAscii(" ");
    Encode(name + " " + c.arg) + [Terminator]
  }

  /** A line's bytes hold no terminator before the last one exactly when the
      argument has no carriage return in it. */
  lemma FrameTerminatorOnlyAtEnd(c: Command)
    ensures var r := Frame(c);
      Terminator !in r[..|r| - 1] <==> '\r' !in c.arg
  {
    var r := Frame(c);
    var line := VerbName(c.verb) + " " + c.arg;
    assert r[..|r| - 1] == Encode(line);
    EncodeAsciiByte(line, Terminator);
    assert '\r' in line <==> '\r' in c.arg;
  }

  /** The index of the first `x` in `s`, or `|s|` if there is none. */
  function IndexOf(s: seq<byte>, x: byte): (i: nat)
    ensures i <= |s|
    ensures i < |s| ==> s[i] == x
    ensures forall j :: 0 <= j < i ==> s[j] != x
    decreases |s|
  {
    if |s| == 0 then 0
    else if s[0] == x then 0
    else 1 + IndexOf(s[1..], x)
  }

  /** Reads one line back: its last byte must be the terminator, the verb
      runs to the first space, and the rest is the argument's UTF-8. */
  function ParseFrame(bs: seq<byte>): (r: Option<Command>)
  {
    if |bs| == 0 || bs[|bs| - 1] != Terminator then None
    else
      var body := bs[..|bs| - 1];
      var i := IndexOf(body, Space);
      if i == |body| then None
      else match Decode(body[..i])
        case None => None
        case Some(name) =>
          match VerbNamed(name)
          case None => None
          case Some(v) =>
            match Decode(body[i + 1..])
            case None => None
            case Some(arg) => Some(Command(v, arg))
  }

  /** Every line reads back as the command that wrote it: the verb, one
      space, the argument unchanged, the terminator, and nothing else. */
  lemma ParseFrameRoundTrip(c: Command)
    ensures ParseFrame(Frame(c)) == Some(c)
  {
    var r := Frame(c);
    var name := VerbName(c.verb);
    var n := |name|;
    var body := r[..|r| - 1];
    EncodeAscii(name);
    assert body[..n] == Encode(name);
    assert body[n + 1..] == Encode(c.arg);
    forall j | 0 <= j < n ensures body[j] != Space {
      assert name[j] in name;
    }
    assert IndexOf(body, Space) == n;
    DecodeEncode(name);
    DecodeEncode(c.arg);
    assert VerbNamed(name) == Some(c.verb) by {
      match c.verb
      case Send =>
      case MouseMove =>
      case MouseButtonPress =>
      case MouseButtonRelease =>
      case MouseWheel =>
    }
  }

  /** Everything written to the port in a session: the reset, then each
      command's line in order. */
  function Session(cmds: seq<Command>): seq<byte>
  {
    Reset + Lines(cmds)
  }

  function Lines(cmds: seq<Command>): seq<byte>
    decreases |cmds|
  {
    if |cmds| == 0 then [] else Frame(cmds[0]) + Lines(cmds[1..])
  }

  /** Splits bytes at each terminator and reads every line back. */
  function ParseLines(bs: seq<byte>): (r: Option<seq<Command>>)
    decreases |bs|
  {
    if |bs| == 0 then Some([])
    else
      var i := IndexOf(bs, Terminator);
      if i == |bs| then None
      else match ParseFrame(bs[..i + 1])
        case None => None
        case Some(c) =>
          match ParseLines(bs[i + 1..])
          case None => None
          case Some(rest) => Some([c] + rest)
  }

  function ParseSession(bs: seq<byte>): (r: Option<seq<Command>>)
  {
    if |bs| < |Reset| || bs[..|Reset|] != Reset then None else ParseLines(bs[|Reset|..])
  }

  predicate NoCarriageReturn(cmds: seq<Command>) {
    forall k :: 0 <= k < |cmds| ==> '\r' !in cmds[k].arg
  }

  /** The first terminator in a line followed by anything is the line's own. */
  lemma FirstTerminator(c: Command, rest: seq<byte>)
    requires '\r' !in c.arg
    ensures IndexOf(Frame(c) + rest, Terminator) == |Frame(c)| - 1
  {
    var f := Frame(c);
    var bs := f + rest;
    FrameTerminatorOnlyAtEnd(c);
    var i := IndexOf(bs, Terminator);
    assert bs[|f| - 1] == Terminator;
  }

  /** Reading a line followed by more bytes yields that line's command
      ahead of whatever the rest reads as. */
  lemma ParseLinesCons(c: Command, tail: seq<byte>)
    requires '\r' !in c.arg
    ensures ParseLines(Frame(c) + tail) ==
      match ParseLines(tail)
      case None => None
      case Some(rest) => Some([c] + rest)
  {
    var f := Frame(c);
    var bs := f + tail;
    FirstTerminator(c, tail);
    assert bs[..|f|] == f;
    assert bs[|f|..] == tail;
    ParseFrameRoundTrip(c);
  }

  /** A whole session reads back as the commands sent, provided no argument
      carries a carriage return of its own (which the line protocol could
      not tell from the terminator). */
  lemma {:induction false} ParseLinesRoundTrip(cmds: seq<Command>)
    requires NoCarriageReturn(cmds)
    ensures ParseLines(Lines(cmds)) == Some(cmds)
    decreases |cmds|
  {
    if |cmds| > 0 {
      var tail := Lines(cmds[1..]);
      assert ParseLines(tail) == Some(cmds[1..]) by {
        ParseLinesRoundTrip(cmds[1..]);
      }
      assert ParseLines(Lines(cmds)) == Some([cmds[0]] + cmds[1..]) by {
        assert Lines(cmds) == Frame(cmds[0]) + tail;
        ParseLinesCons(cmds[0], tail);
      }
      assert [cmds[0]] + cmds[1..] == cmds;
    }
  }

  lemma SessionRoundTrip(cmds: seq<Command>)
    requires NoCarriageReturn(cmds)
    ensures ParseSession(Session(cmds)) == Some(cmds)
  {
    var bs := Session(cmds);
    assert bs[|Reset|..] == Lines(cmds);
    ParseLinesRoundTrip(cmds);
  }
}
