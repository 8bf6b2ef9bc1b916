/**
 Commands hidden in the guest's console output. A command stands between a
 prefix and an end byte; everything else goes on to the sinks. Replies travel
 the other way in the same form.
 */
module FrameChannel {
  import opened Words
  import opened Ring

  const ESC: byte := 0x1b
  const DOLLAR: byte := 0x24
  const ETX: byte := 3
  const EOT: byte := 4
  /** ESC ] V P D P ; */
  const PREFIX: seq<byte> := [0x1b, 0x5d, 0x56, 0x50, 0x44, 0x50, 0x3b]
  const PREFIX_LEN: nat := 7
  const COMMAND_MAX: nat := 256

  datatype Parser =
    | Idle
    | Matching(pos: nat, first: byte)
    | Text(command: seq<byte>)

  predicate Starts(b: byte) {
    b == ESC || b == DOLLAR
  }

  predicate ParserOk(p: Parser) {
    match p
    case Idle => true
    case Matching(pos, first) => 1 <= pos < PREFIX_LEN && Starts(first)
    case Text(command) => |command| <= COMMAND_MAX
  }

  predicate Permitted(b: byte) {
    b >= 0x20 || b == 13 || b == 10 || b == 7 || b == 9
  }

  /** What one guest byte does: the parser's next state, the bytes that reach the sinks, the commands submitted. */
  datatype Effect = Effect(parser: Parser, out: seq<byte>, commands: seq<seq<byte>>)

  function NonNul(s: seq<byte>): seq<byte> {
    if s == [] then [] else (if s[0] == 0 then [] else [s[0]]) + NonNul(s[1..])
  }

  lemma {:induction false} NonNulSound(s: seq<byte>)
    ensures |NonNul(s)| <= |s| && forall i :: 0 <= i < |NonNul(s)| ==> NonNul(s)[i] in s && NonNul(s)[i] != 0
    decreases |s|
  {
    if s != [] {
      NonNulSound(s[1..]);
    }
  }

  lemma {:induction false} NonNulJoin(a: seq<byte>, b: seq<byte>)
    ensures NonNul(a + b) == NonNul(a) + NonNul(b)
    decreases |a|
  {
    if a == [] {
      assert a + b == b;
    } else {
      assert (a + b)[1..] == a[1..] + b;
      NonNulJoin(a[1..], b);
    }
  }

  /** The bytes a partial match holds back. */
  function Held(p: Parser): seq<byte>
    requires ParserOk(p)
  {
    match p
    case Idle => []
    case Matching(pos, first) => [first] + PREFIX[1..pos]
    case Text(_) => []
  }

  lemma HeldAt(pos: nat, first: byte, i: nat)
    requires 1 <= i < pos < PREFIX_LEN && Starts(first)
    ensures |Held(Matching(pos, first))| == pos && Held(Matching(pos, first))[i] == PREFIX[i]
  {
    assert PREFIX[1..pos][i - 1] == PREFIX[i];
  }

  function Handle(p: Parser, b: byte): (e: Effect)
    requires ParserOk(p)
    ensures ParserOk(e.parser)
  {
    match p
    case Idle =>
      if Starts(b) then Effect(Matching(1, b), [], []) else Effect(Idle, NonNul([b]), [])
    case Matching(pos, first) =>
      if b != PREFIX[pos] then Effect(Idle, NonNul(Held(p) + [b]), [])
      else if pos + 1 == PREFIX_LEN then Effect(Text([]), [], [])
      else Effect(Matching(pos + 1, first), [], [])
    case Text(command) =>
      if b == ETX || b == EOT then Effect(Idle, [], [command])
      else if !Permitted(b) then Effect(Idle, NonNul([b]), [])
      else if |command| < COMMAND_MAX then Effect(Text(command + [b]), [], [])
      else Effect(p, [], [])
  }

  function Feed(p: Parser, s: seq<byte>): (e: Effect)
    requires ParserOk(p)
    ensures ParserOk(e.parser)
    decreases |s|
  {
    if s == [] then Effect(p, [], [])
    else
      var e := Handle(p, s[0]);
      Then(e, Feed(e.parser, s[1..]))
  }

  /** One effect after another. */
  function Then(e: Effect, f: Effect): Effect {
    Effect(f.parser, e.out + f.out, e.commands + f.commands)
  }

  lemma ThenAssociates(e: Effect, f: Effect, g: Effect)
    ensures Then(Then(e, f), g) == Then(e, Then(f, g))
  {
  }

  /** One guest byte makes at most seven reach a sink. */
  lemma ExpansionBound(p: Parser, b: byte)
    requires ParserOk(p)
    ensures |Handle(p, b).out| <= PREFIX_LEN
    ensures forall i :: 0 <= i < |Handle(p, b).out| ==> Handle(p, b).out[i] != 0
  {
    NonNulSound([b]);
    if p.Matching? {
      NonNulSound(Held(p) + [b]);
    }
  }

  /** Seven bytes do leave at once when a match fails on its last byte. */
  lemma ExpansionIsReached(b: byte)
    requires b != 0 && b != PREFIX[6]
    ensures Handle(Matching(6, ESC), b).out == PREFIX[..6] + [b]
  {
    var s := PREFIX[..6] + [b];
    assert forall i :: 0 <= i < 6 ==> PREFIX[i] != 0;
    NonNulIdentity(s);
    assert [ESC] + PREFIX[1..6] == PREFIX[..6];
  }

  lemma {:induction false} NonNulIdentity(s: seq<byte>)
    requires forall i :: 0 <= i < |s| ==> s[i] != 0
    ensures NonNul(s) == s
    decreases |s|
  {
    if s != [] {
      NonNulIdentity(s[1..]);
    }
  }

  // ----- plain text -----

  ghost predicate PrefixAt(s: seq<byte>, i: nat) {
    i + PREFIX_LEN <= |s| && Starts(s[i]) && s[i + 1..i + PREFIX_LEN] == PREFIX[1..]
  }

  ghost predicate Plain(s: seq<byte>) {
    forall i :: 0 <= i < |s| ==> !PrefixAt(s, i)
  }

  lemma PlainTail(s: seq<byte>, k: nat)
    requires Plain(s) && k <= |s|
    ensures Plain(s[k..])
  {
    forall i | 0 <= i < |s| - k ensures !PrefixAt(s[k..], i) {
      assert !PrefixAt(s, k + i);
      assert i + PREFIX_LEN <= |s| - k ==> s[k..][i + 1..i + PREFIX_LEN] == s[k + i + 1..k + i + PREFIX_LEN];
    }
  }

  /** The parser is outside a command, has submitted none, and has let through all but what it holds. */
  ghost predicate Passed(e: Effect, s: seq<byte>) {
    ParserOk(e.parser) && !e.parser.Text? && e.commands == [] && e.out + NonNul(Held(e.parser)) == NonNul(s)
  }

  /** Output in which no prefix occurs passes unchanged but for NULs, up to the bytes a partial match still holds. */
  lemma {:induction false} PlainPasses(p: Parser, s: seq<byte>)
    requires ParserOk(p) && !p.Text? && Plain(Held(p) + s)
    ensures Passed(Feed(p, s), Held(p) + s)
    decreases |s|
  {
    if s == [] {
      assert Held(p) + s == Held(p);
    } else {
      var b, rest := s[0], s[1..];
      var e := Handle(p, b);
      assert Held(p) + s == Held(p) + [b] + rest;
      PlainStep(p, b, rest);
      PlainPasses(e.parser, rest);
      Chain(e.out, Feed(e.parser, rest), Held(e.parser) + rest, Held(p) + s);
    }
  }

  lemma Chain(out: seq<byte>, rest: Effect, tail: seq<byte>, all: seq<byte>)
    requires Passed(rest, tail) && out + NonNul(tail) == NonNul(all)
    ensures Passed(Effect(rest.parser, out + rest.out, [] + rest.commands), all)
  {
    assert (out + rest.out) + NonNul(Held(rest.parser)) == out + NonNul(tail);
  }

  /** The state between two bytes: what is held, and what is still to come. */
  ghost predicate StepPasses(e: Effect, rest: seq<byte>, all: seq<byte>) {
    && ParserOk(e.parser) && !e.parser.Text? && e.commands == [] && Plain(Held(e.parser) + rest)
    && e.out + NonNul(Held(e.parser) + rest) == NonNul(all)
  }

  lemma PlainStep(p: Parser, b: byte, rest: seq<byte>)
    requires ParserOk(p) && !p.Text? && Plain(Held(p) + [b] + rest)
    ensures StepPasses(Handle(p, b), rest, Held(p) + [b] + rest)
  {
    if Handle(p, b).parser.Idle? {
      Released(p, b);
      AfterRelease(Held(p) + [b], rest);
    } else {
      MatchGrows(p, b);
      NotWhole(Held(p) + [b], rest);
      StillHeld(Handle(p, b), Held(p) + [b], rest);
    }
  }

  lemma StillHeld(e: Effect, held: seq<byte>, rest: seq<byte>)
    requires ParserOk(e.parser) && !e.parser.Text? && e.commands == [] && e.out == [] && Held(e.parser) == held
    requires Plain(held + rest)
    ensures StepPasses(e, rest, held + rest)
  {
    assert [] + NonNul(held + rest) == NonNul(held + rest);
  }

  lemma AfterRelease(held: seq<byte>, rest: seq<byte>)
    requires Plain(held + rest)
    ensures Plain([] + rest) && NonNul(held) + NonNul([] + rest) == NonNul(held + rest)
  {
    NonNulJoin(held, rest);
    PlainTail(held + rest, |held|);
    assert (held + rest)[|held|..] == rest;
    assert [] + rest == rest;
  }

  lemma NotWhole(held: seq<byte>, rest: seq<byte>)
    requires Plain(held + rest) && |held| <= PREFIX_LEN
    ensures !(|held| == PREFIX_LEN && Starts(held[0]) && held[1..] == PREFIX[1..])
  {
    if |held| == PREFIX_LEN {
      assert !PrefixAt(held + rest, 0);
      assert (held + rest)[1..PREFIX_LEN] == held[1..];
    }
  }

  lemma Released(p: Parser, b: byte)
    requires ParserOk(p) && !p.Text? && Handle(p, b).parser.Idle?
    ensures Handle(p, b) == Effect(Idle, NonNul(Held(p) + [b]), [])
  {
    if p.Idle? {
      assert Held(p) + [b] == [b];
    }
  }

  lemma MatchGrows(p: Parser, b: byte)
    requires ParserOk(p) && !p.Text? && !Handle(p, b).parser.Idle?
    ensures Handle(p, b).out == [] && Handle(p, b).commands == []
    ensures var q, held := Handle(p, b).parser, Held(p) + [b];
            |held| <= PREFIX_LEN &&
            if q.Text? then |held| == PREFIX_LEN && Starts(held[0]) && held[1..] == PREFIX[1..]
            else Held(q) == held
  {
  }

  // ----- commands -----

  /** A reply, and equally a command: prefix, payload, end byte. */
  function Encode(payload: seq<byte>): seq<byte> {
    PREFIX + payload + [ETX]
  }

  function Cut(command: seq<byte>): (c: seq<byte>)
    ensures |c| <= COMMAND_MAX
  {
    if |command| <= COMMAND_MAX then command else command[..COMMAND_MAX]
  }

  ghost predicate AllPermitted(s: seq<byte>) {
    forall i :: 0 <= i < |s| ==> Permitted(s[i])
  }

  lemma {:induction false} FeedJoin(p: Parser, a: seq<byte>, b: seq<byte>)
    requires ParserOk(p)
    ensures var e := Feed(p, a); var f := Feed(e.parser, b);
            Feed(p, a + b) == Then(e, f)
    decreases |a|
  {
    if a == [] {
      assert a + b == b;
    } else {
      assert (a + b)[1..] == a[1..] + b && (a + b)[0] == a[0];
      var h := Handle(p, a[0]);
      FeedJoin(h.parser, a[1..], b);
      var e := Feed(h.parser, a[1..]);
      ThenAssociates(h, e, Feed(e.parser, b));
    }
  }

  lemma {:induction false} FeedPrefix(pos: nat)
    requires 1 <= pos < PREFIX_LEN
    ensures Feed(Matching(pos, ESC), PREFIX[pos..]) == Effect(Text([]), [], [])
    decreases PREFIX_LEN - pos
  {
    assert PREFIX[pos..][1..] == PREFIX[pos + 1..];
    if pos + 1 < PREFIX_LEN {
      FeedPrefix(pos + 1);
    } else {
      assert PREFIX[pos + 1..] == [];
    }
  }

  lemma FeedWholePrefix()
    ensures Feed(Idle, PREFIX) == Effect(Text([]), [], [])
  {
    FeedPrefix(1);
    assert PREFIX[0] == ESC;
  }

  lemma {:induction false} FeedPermitted(command: seq<byte>, s: seq<byte>)
    requires |command| <= COMMAND_MAX && AllPermitted(s)
    ensures Feed(Text(command), s) == Effect(Text(Cut(command + s)), [], [])
    decreases |s|
  {
    if s == [] {
      assert command + s == command;
    } else {
      var next := if |command| < COMMAND_MAX then command + [s[0]] else command;
      FeedPermitted(next, s[1..]);
      assert Cut(next + s[1..]) == Cut(command + s) by {
        assert command + s == command + [s[0]] + s[1..];
      }
    }
  }

  lemma FeedEncoded(payload: seq<byte>)
    ensures var e := Feed(Text([]), payload + [ETX]); Feed(Idle, Encode(payload)) == e
  {
    FeedWholePrefix();
    FeedJoin(Idle, PREFIX, payload + [ETX]);
    assert Encode(payload) == PREFIX + (payload + [ETX]);
  }

  lemma FeedEnd(command: seq<byte>)
    requires |command| <= COMMAND_MAX
    ensures Feed(Text(command), [ETX]) == Effect(Idle, [], [command])
  {
    assert Feed(Idle, []) == Effect(Idle, [], []);
  }

  /** A command of permitted characters is submitted, cut to the longest command, and none of it is shown. */
  lemma CommandSubmitted(payload: seq<byte>)
    requires AllPermitted(payload)
    ensures Feed(Idle, Encode(payload)) == Effect(Idle, [], [Cut(payload)])
  {
    FeedEncoded(payload);
    FeedPermitted([], payload);
    assert [] + payload == payload;
    FeedJoin(Text([]), payload, [ETX]);
    FeedEnd(Cut(payload));
  }

  /**
   In the bytes themselves: ESC or `$`, then `]VPDP;`, a text of characters from the
   space on or BEL, TAB, LF and CR, then ETX or EOT. The text is submitted, cut to 256,
   and nothing is shown.
   */
  lemma CommandInBytes(s: seq<byte>, first: byte, text: seq<byte>, last: byte)
    requires s == [first, 0x5d, 0x56, 0x50, 0x44, 0x50, 0x3b] + text + [last]
    requires (first == 27 || first == 36) && (last == 3 || last == 4)
    requires forall i :: 0 <= i < |text| ==>
               text[i] >= 32 || text[i] == 7 || text[i] == 9 || text[i] == 10 || text[i] == 13
    ensures Feed(Idle, s) == Effect(Idle, [], [if |text| <= 256 then text else text[..256]])
  {
    var prefix: seq<byte> := [first] + PREFIX[1..];
    assert s == prefix + (text + [last]);
    FeedFirst(first);
    FeedJoin(Idle, prefix, text + [last]);
    FeedText(text, last);
  }

  lemma FeedText(text: seq<byte>, last: byte)
    requires AllPermitted(text) && (last == ETX || last == EOT)
    ensures Feed(Text([]), text + [last]) == Effect(Idle, [], [Cut(text)])
  {
    FeedPermitted([], text);
    assert [] + text == text;
    FeedJoin(Text([]), text, [last]);
    EndsText(Cut(text), last);
  }

  lemma FeedFirst(first: byte)
    requires Starts(first)
    ensures Feed(Idle, [first] + PREFIX[1..]) == Effect(Text([]), [], [])
  {
    FeedFrom(first, 1);
    assert ([first] + PREFIX[1..])[1..] == PREFIX[1..];
  }

  lemma {:induction false} FeedFrom(first: byte, pos: nat)
    requires Starts(first) && 1 <= pos < PREFIX_LEN
    ensures Feed(Matching(pos, first), PREFIX[pos..]) == Effect(Text([]), [], [])
    decreases PREFIX_LEN - pos
  {
    assert PREFIX[pos..][1..] == PREFIX[pos + 1..];
    if pos + 1 < PREFIX_LEN {
      FeedFrom(first, pos + 1);
    } else {
      assert PREFIX[pos + 1..] == [];
    }
  }

  lemma EndsText(command: seq<byte>, last: byte)
    requires |command| <= COMMAND_MAX && (last == ETX || last == EOT)
    ensures Feed(Text(command), [last]) == Effect(Idle, [], [command])
  {
    assert Feed(Idle, []) == Effect(Idle, [], []) && [last][1..] == [];
  }

  /** Any other control character in the text throws the command away, and is itself shown unless it is NUL. */
  lemma CommandBroken(command: seq<byte>, b: byte)
    requires |command| <= 256 && b < 32 && b != 3 && b != 4 && b != 7 && b != 9 && b != 10 && b != 13
    ensures Handle(Text(command), b) == Effect(Idle, if b == 0 then [] else [b], [])
  {
    assert NonNul([b]) == if b == 0 then [] else [b];
  }

  /** A character that is not permitted ends the command early, and either it is shown or too little is submitted. */
  lemma EndedEarly(payload: seq<byte>, j: nat)
    requires j < |payload| && !Permitted(payload[j]) && payload[j] != 0 && AllPermitted(payload[..j])
    ensures var e := Feed(Idle, Encode(payload));
            e.out != [] || (e.commands != [] && e.commands[0] == Cut(payload[..j]))
  {
    var a, c, rest := payload[..j], payload[j], payload[j + 1..] + [ETX];
    FeedEncoded(payload);
    assert payload + [ETX] == a + ([c] + rest);
    FeedPermitted([], a);
    assert [] + a == a;
    FeedJoin(Text([]), a, [c] + rest);
    StepEndsEarly(Cut(a), c, rest);
  }

  lemma StepEndsEarly(command: seq<byte>, c: byte, rest: seq<byte>)
    requires |command| <= COMMAND_MAX && !Permitted(c) && c != 0
    ensures var e := Feed(Text(command), [c] + rest); e.out != [] || (e.commands != [] && e.commands[0] == command)
  {
    assert ([c] + rest)[1..] == rest;
    if c != ETX && c != EOT {
      assert NonNul([c]) == [c];
    }
  }

  /** The first character that is not permitted. */
  lemma {:induction false} FirstRefused(s: seq<byte>) returns (j: nat)
    requires !AllPermitted(s)
    ensures j < |s| && !Permitted(s[j]) && AllPermitted(s[..j])
    decreases |s|
  {
    j := |s| - 1;
    if !AllPermitted(s[..j]) {
      j := FirstRefused(s[..j]);
      assert s[..|s| - 1][..j] == s[..j];
    }
  }

  /**
   What was queued as a reply comes back as exactly that command if and only if it is
   short enough and all permitted.
   */
  lemma RoundTrip(payload: seq<byte>)
    requires 0 !in payload
    ensures var e := Feed(Idle, Encode(payload));
            (e.out == [] && e.commands == [payload]) <==> (|payload| <= COMMAND_MAX && AllPermitted(payload))
  {
    if AllPermitted(payload) {
      CommandSubmitted(payload);
    } else {
      var j := FirstRefused(payload);
      EndedEarly(payload, j);
    }
  }

  /** A command in the stream leaves no trace in what is shown around it. */
  lemma CommandIsInvisible(payload: seq<byte>, rest: seq<byte>)
    requires AllPermitted(payload)
    ensures Feed(Idle, Encode(payload) + rest).out == Feed(Idle, rest).out
    ensures Feed(Idle, Encode(payload) + rest).commands == [Cut(payload)] + Feed(Idle, rest).commands
  {
    CommandSubmitted(payload);
    FeedJoin(Idle, Encode(payload), rest);
  }

  lemma {:induction false} FeedShown(s: seq<byte>)
    requires forall i :: 0 <= i < |s| ==> !Starts(s[i])
    ensures Feed(Idle, s) == Effect(Idle, NonNul(s), [])
    decreases |s|
  {
    if s != [] {
      FeedShown(s[1..]);
      if s[0] == 0 {
        assert NonNul([s[0]]) == [];
      } else {
        assert NonNul([s[0]]) == [s[0]];
      }
    }
  }

  /** A byte that breaks a match is shown and does not begin a new one: this whole command goes to the screen. */
  lemma NoRestart(payload: seq<byte>)
    requires forall i :: 0 <= i < |payload| ==> !Starts(payload[i])
    ensures Feed(Idle, [ESC] + Encode(payload)) == Effect(Idle, NonNul([ESC] + Encode(payload)), [])
  {
    var two, rest := [ESC, ESC], PREFIX[1..] + payload + [ETX];
    assert [ESC] + Encode(payload) == two + rest;
    FeedShown(rest);
    NonNulJoin(two, rest);
    NonNulIdentity(two);
    FeedJoin(Idle, two, rest);
    BrokenMatch();
  }

  lemma BrokenMatch()
    ensures Feed(Idle, [ESC, ESC]) == Effect(Idle, [ESC, ESC], [])
  {
    var p := Matching(1, ESC);
    assert Held(p) + [ESC] == [ESC, ESC];
    NonNulIdentity([ESC, ESC]);
    assert [ESC, ESC][1..] == [ESC] && [ESC][1..] == [];
    assert Feed(p, [ESC]) == Effect(Idle, [ESC, ESC], []);
  }

  /** A partial match or an open command is broken by the prefix's first byte, and something is shown. */
  lemma BrokenByPrefix(p: Parser, rest: seq<byte>)
    requires ParserOk(p) && p != Idle
    ensures Feed(p, [ESC] + rest).out != []
  {
    var e := Handle(p, ESC);
    assert ([ESC] + rest)[1..] == rest;
    match p
    case Matching(pos, first) =>
      assert PREFIX[pos] != ESC;
      NonNulJoin(Held(p), [ESC]);
      assert NonNul([ESC]) == [ESC];
    case Text(command) =>
      assert NonNul([ESC]) == [ESC];
  }

  /**
   A whole command of permitted characters is submitted, and nothing is shown, exactly
   when it meets an idle parser.
   */
  lemma SubmittedIffIdle(p: Parser, payload: seq<byte>)
    requires ParserOk(p) && AllPermitted(payload)
    ensures Feed(p, Encode(payload)) == Effect(Idle, [], [Cut(payload)]) <==> p == Idle
  {
    if p == Idle {
      CommandSubmitted(payload);
    } else {
      var rest := PREFIX[1..] + payload + [ETX];
      assert Encode(payload) == [ESC] + rest;
      BrokenByPrefix(p, rest);
    }
  }

  /**
   So after any output a command is recognised exactly when that output left neither a
   partial match nor a command open.
   */
  lemma SubmittedAfter(p: Parser, s: seq<byte>, payload: seq<byte>)
    requires ParserOk(p) && AllPermitted(payload)
    ensures var e := Feed(p, s);
            Feed(p, s + Encode(payload)) == Effect(Idle, e.out, e.commands + [Cut(payload)]) <==> e.parser == Idle
  {
    var e := Feed(p, s);
    var f := Feed(e.parser, Encode(payload));
    FeedJoin(p, s, Encode(payload));
    SubmittedIffIdle(e.parser, payload);
    if Then(e, f) == Effect(Idle, e.out, e.commands + [Cut(payload)]) {
      assert (e.out + f.out)[|e.out|..] == f.out && e.out[|e.out|..] == [];
      assert (e.commands + f.commands)[|e.commands|..] == f.commands;
      assert (e.commands + [Cut(payload)])[|e.commands|..] == [Cut(payload)];
    }
  }

  // ----- the sinks -----

  const SINK_CAPACITY: nat := 8191

  /** A sink's queue and how many bytes it has had to drop. */
  datatype Sink = Sink(pending: seq<byte>, dropped: nat)

  function Push(s: Sink, b: byte): Sink {
    if |s.pending| < SINK_CAPACITY then s.(pending := Pushed(s.pending, SINK_CAPACITY, b))
    else s.(dropped := s.dropped + 1)
  }

  /** Telnet sends the byte 255 twice. */
  function PushTelnet(s: Sink, b: byte): Sink {
    if |s.pending| < SINK_CAPACITY && b == 255 then Push(Push(s, b), b) else Push(s, b)
  }

  datatype Sinks = Sinks(screen: Sink, telnet: Sink, serial: Sink)

  function Emit(s: Sinks, b: byte): Sinks {
    if b == 0 then s else Sinks(Push(s.screen, b), PushTelnet(s.telnet, b), Push(s.serial, b))
  }

  function EmitAll(s: Sinks, bytes: seq<byte>): Sinks
    decreases |bytes|
  {
    if bytes == [] then s else EmitAll(Emit(s, bytes[0]), bytes[1..])
  }

  ghost predicate Room(s: Sinks, n: nat) {
    && |s.screen.pending| + n <= SINK_CAPACITY && |s.telnet.pending| + n <= SINK_CAPACITY
    && |s.serial.pending| + n <= SINK_CAPACITY
  }

  predicate SameDrops(s: Sinks, t: Sinks) {
    s.screen.dropped == t.screen.dropped && s.telnet.dropped == t.telnet.dropped && s.serial.dropped == t.serial.dropped
  }

  /** With two free places for each byte nothing is dropped. */
  lemma {:induction false} EmitAllFits(s: Sinks, bytes: seq<byte>)
    requires Room(s, 2 * |bytes|)
    ensures SameDrops(EmitAll(s, bytes), s)
    decreases |bytes|
  {
    if bytes != [] {
      EmitAllFits(Emit(s, bytes[0]), bytes[1..]);
    }
  }

  /** The byte 255 doubled. */
  function Doubled(bytes: seq<byte>): seq<byte> {
    if bytes == [] then []
    else (if bytes[0] == 255 then [255, 255] else [bytes[0]]) + Doubled(bytes[1..])
  }

  /** Then every sink gets the bytes in order, apart from NULs, and telnet each 255 twice. */
  lemma {:induction false} SinksGet(s: Sinks, bytes: seq<byte>)
    requires Room(s, 2 * |bytes|)
    ensures var t := EmitAll(s, bytes);
            && t.screen.pending == s.screen.pending + NonNul(bytes)
            && t.serial.pending == s.serial.pending + NonNul(bytes)
            && t.telnet.pending == s.telnet.pending + Doubled(NonNul(bytes))
    decreases |bytes|
  {
    if bytes != [] {
      var b, rest := bytes[0], bytes[1..];
      var shown := if b == 0 then [] else [b];
      EmitGets(s, b);
      SinksGet(Emit(s, b), rest);
      DoubledJoin(shown, NonNul(rest));
      Regroup(s.screen.pending, shown, NonNul(rest));
      Regroup(s.serial.pending, shown, NonNul(rest));
      Regroup(s.telnet.pending, Doubled(shown), Doubled(NonNul(rest)));
    }
  }

  lemma EmitGets(s: Sinks, b: byte)
    requires Room(s, 2)
    ensures var t, shown := Emit(s, b), if b == 0 then [] else [b];
            && t.screen.pending == s.screen.pending + shown && t.serial.pending == s.serial.pending + shown
            && t.telnet.pending == s.telnet.pending + Doubled(shown)
  {
    assert [b][1..] == [];
  }

  lemma {:induction false} DoubledJoin(a: seq<byte>, b: seq<byte>)
    ensures Doubled(a + b) == Doubled(a) + Doubled(b)
    decreases |a|
  {
    if a == [] {
      assert a + b == b;
    } else {
      assert (a + b)[1..] == a[1..] + b;
      DoubledJoin(a[1..], b);
    }
  }

  lemma Regroup(a: seq<byte>, b: seq<byte>, c: seq<byte>)
    ensures (a + b) + c == a + (b + c)
  {
  }

  /** A sink with 8191 bytes waiting drops what comes; telnet's second 255 as well. */
  lemma FullSinkDrops(s: Sink, b: byte)
    ensures |s.pending| >= 8191 ==>
              Push(s, b) == s.(dropped := s.dropped + 1) && PushTelnet(s, b) == s.(dropped := s.dropped + 1)
    ensures |s.pending| < 8191 ==> Push(s, b) == s.(pending := s.pending + [b])
    ensures |s.pending| == 8190 && b == 255 ==>
              PushTelnet(s, b) == Sink(s.pending + [b], s.dropped + 1)
    ensures |s.pending| < 8190 ==> PushTelnet(s, b) == s.(pending := s.pending + if b == 255 then [b, b] else [b])
  {
  }

  lemma {:induction false} EmitAllJoin(s: Sinks, a: seq<byte>, b: seq<byte>)
    ensures EmitAll(s, a + b) == EmitAll(EmitAll(s, a), b)
    decreases |a|
  {
    if a == [] {
      assert a + b == b;
    } else {
      assert (a + b)[1..] == a[1..] + b;
      EmitAllJoin(Emit(s, a[0]), a[1..], b);
    }
  }

  lemma {:induction false} EmitAllNonNul(s: Sinks, bytes: seq<byte>)
    ensures EmitAll(s, NonNul(bytes)) == EmitAll(s, bytes)
    decreases |bytes|
  {
    if bytes != [] {
      EmitAllNonNul(Emit(s, bytes[0]), bytes[1..]);
      if bytes[0] == 0 {
        assert NonNul(bytes) == NonNul(bytes[1..]);
      } else {
        assert NonNul(bytes)[1..] == NonNul(bytes[1..]);
      }
    }
  }

  lemma EmitAllPush(s: Sinks, a: seq<byte>, b: byte)
    ensures EmitAll(s, a + [b]) == Emit(EmitAll(s, a), b)
  {
    EmitAllJoin(s, a, [b]);
    assert [b][1..] == [];
  }

  // ----- the channel -----

  datatype Mode = IdleMode | PrefixMode | TextMode

  class Channel {
    var mode: Mode
    var pos: nat
    var first: byte
    const command: array<byte>
    var length: nat
    var sinks: Sinks
    /** The commands handed on. */
    var submitted: seq<seq<byte>>
    const reply: Fifo

    ghost predicate Valid()
      reads this, reply
    {
      && command.Length == COMMAND_MAX + 1 && length <= COMMAND_MAX
      && reply.Valid() && reply.buf != command
      && (mode == PrefixMode ==> 1 <= pos < PREFIX_LEN && Starts(first))
    }

    ghost function Parsing(): (p: Parser)
      requires Valid()
      reads this, reply, command
      ensures ParserOk(p)
    {
      match mode
      case IdleMode => Idle
      case PrefixMode => Matching(pos, first)
      case TextMode => Text(command[..length])
    }

    constructor ()
      ensures Valid() && Parsing() == Idle && reply.Contents() == [] && reply.Capacity() == 1023
      ensures sinks == Sinks(Sink([], 0), Sink([], 0), Sink([], 0)) && submitted == []
      ensures fresh(command) && fresh(reply) && fresh(reply.buf)
    {
      mode, pos, first, length := IdleMode, 0, 0, 0;
      command := new byte[COMMAND_MAX + 1](_ => 0);
      sinks, submitted := Sinks(Sink([], 0), Sink([], 0), Sink([], 0)), [];
      reply := new Fifo(1024);
    }

    method EmitByte(b: byte)
      modifies this`sinks
      ensures sinks == Emit(old(sinks), b)
    {
      if b == 0 {
        return;
      }
      sinks := Sinks(Push(sinks.screen, b), PushTelnet(sinks.telnet, b), Push(sinks.serial, b));
    }

    method ResetParser()
      modifies this`mode, this`pos, this`first, this`length
      ensures mode == IdleMode && length == 0
    {
      mode, pos, first, length := IdleMode, 0, 0, 0;
    }

    method EmitHeld(n: nat, start: byte)
      requires 1 <= n < PREFIX_LEN && Starts(start)
      modifies this`sinks
      ensures sinks == EmitAll(old(sinks), Held(Matching(n, start)))
    {
      ghost var before, held := sinks, Held(Matching(n, start));
      assert held[..0] == [] && |held| == n;
      EmitAllPush(before, held[..0], start);
      assert held[..1] == held[..0] + [start];
      EmitByte(start);
      for i := 1 to n
        invariant sinks == EmitAll(before, held[..i])
      {
        HeldAt(n, start, i);
        assert held[..i + 1] == held[..i] + [held[i]];
        EmitAllPush(before, held[..i], PREFIX[i]);
        EmitByte(PREFIX[i]);
      }
      assert held[..n] == held;
    }

    /** A failed match gives back what it held, then the byte that broke it. */
    method BreakMatch(b: byte)
      requires Valid() && mode == PrefixMode
      modifies this`mode, this`pos, this`first, this`length, this`sinks
      ensures Valid() && mode == IdleMode && sinks == EmitAll(old(sinks), old(Held(Parsing())) + [b])
    {
      ghost var before := sinks;
      EmitHeld(pos, first);
      EmitAllPush(before, Held(Matching(pos, first)), b);
      EmitByte(b);
      ResetParser();
    }

    method HandleGuestOutput(b: byte)
      requires Valid()
      modifies this`mode, this`pos, this`first, this`length, this`sinks, this`submitted, command
      ensures Valid()
      ensures var e := Handle(old(Parsing()), b);
              && Parsing() == e.parser && sinks == EmitAll(old(sinks), e.out)
              && submitted == old(submitted) + e.commands
    {
      match mode {
        case IdleMode =>
          if b == PREFIX[0] || b == DOLLAR {
            mode, pos, first := PrefixMode, 1, b;
          } else {
            EmitAllNonNul(sinks, [b]);
            EmitByte(b);
          }
        case PrefixMode =>
          if b == PREFIX[pos] {
            pos := pos + 1;
            if pos == PREFIX_LEN {
              mode, length := TextMode, 0;
            }
          } else {
            EmitAllNonNul(sinks, Held(Parsing()) + [b]);
            BreakMatch(b);
          }
        case TextMode =>
          HandleText(b);
      }
    }

    method HandleText(b: byte)
      requires Valid() && mode == TextMode
      modifies this`mode, this`pos, this`first, this`length, this`sinks, this`submitted, command
      ensures Valid()
      ensures var e := Handle(old(Parsing()), b);
              && Parsing() == e.parser && sinks == EmitAll(old(sinks), e.out)
              && submitted == old(submitted) + e.commands
    {
      if b == ETX || b == EOT {
        command[length] := 0;
        submitted := submitted + [command[..length]];
        ResetParser();
        return;
      }
      if b < 0x20 && !(b == 13 || b == 10 || b == 7 || b == 9) {
        EmitAllNonNul(sinks, [b]);
        ResetParser();
        EmitByte(b);
        return;
      }
      if length < COMMAND_MAX {
        ghost var before := command[..length];
        command[length] := b;
        length := length + 1;
        assert command[..length] == before + [b];
      }
    }

    /** A reply is queued whole or not at all. */
    method QueueControlReply(payload: seq<byte>) returns (ok: bool)
      requires Valid()
      modifies reply`head, reply.buf
      ensures Valid()
      ensures ok == (|old(reply.Contents())| + |Encode(payload)| <= reply.Capacity())
      ensures reply.Contents() == old(reply.Contents()) + if ok then Encode(payload) else []
    {
      if PREFIX_LEN + |payload| + 1 > reply.Capacity() - reply.Count() {
        return false;
      }
      PushBytes(PREFIX);
      PushBytes(payload);
      PushBytes([ETX]);
      ok := true;
    }

    method PushBytes(bytes: seq<byte>)
      requires Valid() && reply.Count() + |bytes| <= reply.Capacity()
      modifies reply`head, reply.buf
      ensures Valid() && reply.Contents() == old(reply.Contents()) + bytes
    {
      ghost var before := reply.Contents();
      for i := 0 to |bytes|
        invariant Valid() && reply.Contents() == before + bytes[..i]
      {
        var _, _ := reply.Push(bytes[i]);
      }
    }
  }
}
