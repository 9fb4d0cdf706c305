/** The control socket of src/control.cpp: a byte-at-a-time command parser and the matching writer. */
module Control {
  import opened SeqFacts

  const BUFSIZE := 4096

  /** What `parse_command` is called with, without the terminating NULs. */
  datatype Message = Message(cmd: string, param: string)

  /** What the static variables of `process_char` mean. */
  datatype Parser = Idle | Reading(cmd: string, param: string, inParam: bool) {
    predicate Fits() {
      Reading? ==> |cmd| < BUFSIZE && |param| < BUFSIZE
    }

    /** One character. */
    function Step(c: char): Parser {
      if c == ':' then Reading("", "", false)
      else if c == ';' || Idle? then Idle
      else if c == '=' then this.(inParam := true)
      else if inParam then if |param| >= BUFSIZE - 1 then Idle else this.(param := param + [c])
      else if |cmd| >= BUFSIZE - 1 then Idle else this.(cmd := cmd + [c])
    }

    /** The command that is dispatched by one character. */
    function Dispatched(c: char): seq<Message> {
      if c == ';' && Reading? then [Message(cmd, param)] else []
    }

    function Run(s: string): Parser {
      if s == "" then this else Run(s[..|s| - 1]).Step(s[|s| - 1])
    }

    function Output(s: string): seq<Message> {
      if s == "" then [] else Output(s[..|s| - 1]) + Run(s[..|s| - 1]).Dispatched(s[|s| - 1])
    }
  }

  // ------------------------------------------------------------------ the declarative reading of a stream

  /** The position of the last `:` or `;`, or -1. */
  function LastMark(s: string): (i: int)
    ensures -1 <= i < |s|
    ensures i >= 0 ==> s[i] == ':' || s[i] == ';'
    ensures forall k :: i < k < |s| ==> s[k] != ':' && s[k] != ';'
  {
    if s == "" then -1
    else if s[|s| - 1] == ':' || s[|s| - 1] == ';' then |s| - 1
    else LastMark(s[..|s| - 1])
  }

  /** Is there a `:` with no `;` behind it? */
  predicate IsOpen(s: string) {
    LastMark(s) >= 0 && s[LastMark(s)] == ':'
  }

  /** The text since the latest `:`. */
  function OpenText(s: string): string
    requires IsOpen(s)
  {
    s[LastMark(s) + 1..]
  }

  function FirstEquals(t: string): (i: nat)
    ensures i <= |t|
    ensures '=' !in t[..i] && (i < |t| ==> t[i] == '=')
  {
    if t == "" || t[0] == '=' then 0 else 1 + FirstEquals(t[1..])
  }

  function WithoutEquals(t: string): string {
    if t == "" then "" else WithoutEquals(t[..|t| - 1]) + if t[|t| - 1] == '=' then "" else [t[|t| - 1]]
  }

  /** The text before the first `=`. */
  function CmdPart(t: string): string {
    t[..FirstEquals(t)]
  }

  /** The text behind the first `=`, without any further `=`. */
  function ParamPart(t: string): string {
    if FirstEquals(t) == |t| then "" else WithoutEquals(t[FirstEquals(t) + 1..])
  }

  predicate Acceptable(t: string) {
    |CmdPart(t)| < BUFSIZE && |ParamPart(t)| < BUFSIZE
  }

  /** The command that a `;` behind `s` ends. */
  function CommandBehind(s: string): seq<Message> {
    if IsOpen(s) && Acceptable(OpenText(s)) then [Message(CmdPart(OpenText(s)), ParamPart(OpenText(s)))] else []
  }

  /** All commands of a stream: one for each `;` that ends an acceptable text. */
  function Commands(s: string): seq<Message> {
    if s == "" then []
    else Commands(s[..|s| - 1]) + if s[|s| - 1] == ';' then CommandBehind(s[..|s| - 1]) else []
  }

  /** The parser's memory of a stream. */
  function StateOf(s: string): Parser {
    if IsOpen(s) && Acceptable(OpenText(s)) then
      Reading(CmdPart(OpenText(s)), ParamPart(OpenText(s)), FirstEquals(OpenText(s)) < |OpenText(s)|)
    else Idle
  }

  // ------------------------------------------------------------------ the automaton reads what the declaration says

  lemma {:induction false} FirstEqualsOfLonger(t: string, c: char)
    ensures FirstEquals(t + [c]) ==
            if FirstEquals(t) < |t| then FirstEquals(t) else if c == '=' then |t| else |t| + 1
    decreases |t|
  {
    if t == "" {
      assert t + [c] == [c];
      assert [c][1..] == "";
    } else {
      assert (t + [c])[1..] == t[1..] + [c];
      if t[0] != '=' { FirstEqualsOfLonger(t[1..], c); }
    }
  }

  lemma WithoutEqualsOfLonger(t: string, c: char)
    ensures WithoutEquals(t + [c]) == WithoutEquals(t) + if c == '=' then "" else [c]
  {
  }

  /** How the two parts grow with one more character of text. */
  lemma PartsGrow(t: string, c: char)
    ensures var e := FirstEquals(t) < |t|;
            && CmdPart(t + [c]) == (if e || c == '=' then CmdPart(t) else CmdPart(t) + [c])
            && ParamPart(t + [c]) == (if e && c != '=' then ParamPart(t) + [c] else ParamPart(t))
            && (FirstEquals(t + [c]) < |t + [c]| <==> e || c == '=')
  {
    hide FirstEquals, WithoutEquals, CmdPart, ParamPart;
    FirstEqualsOfLonger(t, c);
    if FirstEquals(t) < |t| { GrowBehind(t, c); } else { GrowBefore(t, c); }
  }

  /** More text behind an `=`. */
  lemma GrowBehind(t: string, c: char)
    requires FirstEquals(t + [c]) == FirstEquals(t) < |t|
    ensures CmdPart(t + [c]) == CmdPart(t)
    ensures ParamPart(t + [c]) == ParamPart(t) + if c == '=' then "" else [c]
  {
    hide FirstEquals, WithoutEquals;
    var f := FirstEquals(t);
    Longer(t, c, f);
    Longer(t, c, f + 1);
    WithoutEqualsOfLonger(t[f + 1..], c);
  }

  /** More text without one, or the first one. */
  lemma GrowBefore(t: string, c: char)
    requires FirstEquals(t) == |t| && FirstEquals(t + [c]) == if c == '=' then |t| else |t| + 1
    ensures CmdPart(t + [c]) == CmdPart(t) + if c == '=' then "" else [c]
    ensures ParamPart(t) == "" && ParamPart(t + [c]) == ""
  {
    hide FirstEquals, WithoutEquals;
    Longer(t, c, |t|);
    NothingLeft();
  }

  lemma NothingLeft()
    ensures WithoutEquals("") == ""
  {
  }

  lemma OpenTextGrows(s: string, c: char)
    ensures c == ':' ==> IsOpen(s + [c]) && OpenText(s + [c]) == ""
    ensures c == ';' ==> !IsOpen(s + [c])
    ensures c != ':' && c != ';' ==> IsOpen(s + [c]) == IsOpen(s)
    ensures c != ':' && c != ';' && IsOpen(s) ==> OpenText(s + [c]) == OpenText(s) + [c]
  {
  }

  lemma NothingOpen()
    ensures Acceptable("") && CmdPart("") == "" && ParamPart("") == "" && FirstEquals("") == 0
  {
  }

  /** One step keeps the memory in line with the stream. */
  lemma StepFollowsStream(s: string, c: char)
    ensures StateOf(s + [c]) == StateOf(s).Step(c)
    ensures StateOf(s).Dispatched(c) == if c == ';' then CommandBehind(s) else []
  {
    hide IsOpen, OpenText, CmdPart, ParamPart, FirstEquals;
    OpenTextGrows(s, c);
    NothingOpen();
    if c != ':' && c != ';' && IsOpen(s) {
      PartsGrow(OpenText(s), c);
    }
  }

  /** For every stream the automaton dispatches exactly the commands of the declarative reading. */
  lemma {:induction false} RunIsParse(s: string)
    ensures Idle.Run(s) == StateOf(s)
    ensures Idle.Output(s) == Commands(s)
    decreases |s|
  {
    hide StateOf, CommandBehind;
    if s == "" {
      EmptyStream();
    } else {
      var init, c := s[..|s| - 1], s[|s| - 1];
      assert s == init + [c];
      RunIsParse(init);
      StepFollowsStream(init, c);
    }
  }

  lemma EmptyStream()
    ensures StateOf("") == Idle
  {
  }

  /** Cutting a stream anywhere makes no difference. */
  lemma {:induction false} RunInBlocks(p: Parser, a: string, b: string)
    ensures p.Run(a + b) == p.Run(a).Run(b)
    ensures p.Output(a + b) == p.Output(a) + p.Run(a).Output(b)
    decreases |b|
  {
    hide Parser.Step, Parser.Dispatched;
    if b == "" {
      assert a + b == a;
    } else {
      assert (a + b)[..|a + b| - 1] == a + b[..|b| - 1];
      RunInBlocks(p, a, b[..|b| - 1]);
    }
  }

  lemma {:induction false} RunFits(p: Parser, s: string)
    requires p.Fits()
    ensures p.Run(s).Fits()
    decreases |s|
  {
    if s != "" { RunFits(p, s[..|s| - 1]); }
  }

  // ------------------------------------------------------------------ writing messages

  /** What `control_send` puts on the wire; a message without parameter gets no `;`. */
  function Encode(m: Message): string {
    ":" + m.cmd + if m.param == "" then "" else "=" + m.param + ";"
  }

  function EncodeAll(ms: seq<Message>): string {
    if ms == [] then "" else EncodeAll(ms[..|ms| - 1]) + Encode(ms[|ms| - 1])
  }

  /** No separators in either part, and short enough for the assertion in `control_send`. */
  predicate Sendable(m: Message) {
    && (forall c <- m.cmd :: c !in {':', ';', '='})
    && (forall c <- m.param :: c !in {':', ';', '='})
    && |m.cmd| + |m.param| + 3 < BUFSIZE
  }

  function WithParam(ms: seq<Message>): seq<Message> {
    if ms == [] then []
    else WithParam(ms[..|ms| - 1]) + if ms[|ms| - 1].param == "" then [] else [ms[|ms| - 1]]
  }

  lemma {:induction false} ReadText(p: Parser, s: string)
    requires p.Reading? && (forall c <- s :: c !in {':', ';', '='}) && |p.cmd| + |p.param| + |s| < BUFSIZE
    ensures p.Run(s) == if p.inParam then p.(param := p.param + s) else p.(cmd := p.cmd + s)
    ensures p.Output(s) == []
    decreases |s|
  {
    if s == "" {
      assert p.param + s == p.param && p.cmd + s == p.cmd;
    } else {
      var init := s[..|s| - 1];
      assert s[|s| - 1] in s && forall c <- init :: c in s;
      ReadText(p, init);
      assert s == init + [s[|s| - 1]];
    }
  }

  lemma ReadOne(p: Parser, c: char)
    ensures p.Run([c]) == p.Step(c) && p.Output([c]) == p.Dispatched(c)
  {
  }

  /** One message, from any state of the parser. */
  lemma ReadMessage(p: Parser, m: Message)
    requires Sendable(m)
    ensures p.Output(Encode(m)) == if m.param == "" then [] else [m]
  {
    hide Parser.Run, Parser.Output;
    var start := Reading("", "", false);
    ReadOne(p, ':');
    ReadText(start, m.cmd);
    assert "" + m.cmd == m.cmd && "" + m.param == m.param;
    RunInBlocks(p, ":", m.cmd);
    if m.param == "" {
      assert Encode(m) == ":" + m.cmd;
    } else {
      var named := Reading(m.cmd, "", false);
      ReadOne(named, '=');
      ReadText(named.(inParam := true), m.param);
      ReadOne(Reading(m.cmd, m.param, true), ';');
      RunInBlocks(named, "=", m.param);
      RunInBlocks(named, "=" + m.param, ";");
      RunInBlocks(p, ":" + m.cmd, "=" + m.param + ";");
    }
  }

  /** A list of messages, concatenated: behind any earlier bytes, exactly those with a parameter arrive,
      in order. */
  lemma {:induction false} SentIsReceived(before: string, ms: seq<Message>)
    requires forall m <- ms :: Sendable(m)
    ensures Commands(before + EncodeAll(ms)) == Commands(before) + WithParam(ms)
    decreases |ms|
  {
    hide Encode, Commands, Sendable, StateOf, Parser.Run, Parser.Output;
    if ms == [] {
      assert before + "" == before;
    } else {
      var init, last := ms[..|ms| - 1], ms[|ms| - 1];
      assert last in ms && forall m <- init :: m in ms;
      SentIsReceived(before, init);
      var stream := before + EncodeAll(init);
      assert before + EncodeAll(ms) == stream + Encode(last);
      RunIsParse(stream);
      RunIsParse(stream + Encode(last));
      RunInBlocks(Idle, stream, Encode(last));
      ReadMessage(Idle.Run(stream), last);
    }
  }

  lemma {:induction false} WithParamLength(ms: seq<Message>)
    ensures |WithParam(ms)| <= |ms|
    ensures |WithParam(ms)| == |ms| <==> forall i :: 0 <= i < |ms| ==> ms[i].param != ""
    ensures |WithParam(ms)| == |ms| ==> WithParam(ms) == ms
    decreases |ms|
  {
    if ms != [] {
      var init, last := ms[..|ms| - 1], ms[|ms| - 1];
      WithParamLength(init);
      assert ms == init + [last];
      assert forall i :: 0 <= i < |init| ==> ms[i] == init[i];
    }
  }

  /** A list arrives as it was sent exactly when every message has a parameter. */
  lemma RoundTrip(ms: seq<Message>)
    requires forall m <- ms :: Sendable(m)
    ensures Commands(EncodeAll(ms)) == ms <==> forall i :: 0 <= i < |ms| ==> ms[i].param != ""
  {
    hide Sendable;
    SentIsReceived("", ms);
    WithParamLength(ms);
    assert "" + EncodeAll(ms) == EncodeAll(ms) && [] + WithParam(ms) == WithParam(ms);
  }

  /** Behind a message the parser is idle; a message without parameter leaves its command open. */
  lemma SentLeaves(before: string, m: Message)
    requires Sendable(m)
    ensures StateOf(before + Encode(m)) == if m.param == "" then Reading(m.cmd, "", false) else Idle
  {
    hide StateOf, Parser.Run, Parser.Output;
    RunIsParse(before);
    RunIsParse(before + Encode(m));
    RunInBlocks(Idle, before, Encode(m));
    StateBehind(Idle.Run(before), m);
  }

  lemma StateBehind(p: Parser, m: Message)
    requires Sendable(m)
    ensures p.Run(Encode(m)) == if m.param == "" then Reading(m.cmd, "", false) else Idle
  {
    hide Parser.Run, Parser.Output;
    var start := Reading("", "", false);
    ReadOne(p, ':');
    ReadText(start, m.cmd);
    assert "" + m.cmd == m.cmd && "" + m.param == m.param;
    RunInBlocks(p, ":", m.cmd);
    if m.param == "" {
      assert Encode(m) == ":" + m.cmd;
    } else {
      var named := Reading(m.cmd, "", false);
      ReadOne(named, '=');
      ReadText(named.(inParam := true), m.param);
      ReadOne(Reading(m.cmd, m.param, true), ';');
      RunInBlocks(named, "=", m.param);
      RunInBlocks(named, "=" + m.param, ";");
      RunInBlocks(p, ":" + m.cmd, "=" + m.param + ";");
    }
  }

  /** A message without parameter is lost: no `;` is sent behind it, and the next `:` starts afresh. */
  lemma LostExample()
    ensures Commands(EncodeAll([Message("hud", ""), Message("logging", "1")])) == [Message("logging", "1")]
  {
    hide Commands, Encode;
    var a, b := Message("hud", ""), Message("logging", "1");
    assert [a, b][..1] == [a] && [a][..0] == [];
    assert WithParam([a]) == [];
    assert WithParam([a, b]) == [b];
    SentIsReceived("", [a, b]);
    NoCommands();
    assert "" + EncodeAll([a, b]) == EncodeAll([a, b]);
  }

  lemma NoCommands()
    ensures Commands("") == []
  {
  }

  /** `control_send`, into its buffer. */
  method ControlSend(cmd: string, param: string) returns (sent: string)
    requires |cmd| + |param| + 3 < BUFSIZE
    ensures sent == Encode(Message(cmd, param))
  {
    var buffer := new char[BUFSIZE];
    var msglen := 0;
    buffer[msglen] := ':';
    msglen := msglen + 1;
    msglen := Copy(buffer, msglen, cmd);
    assert buffer[..msglen] == ":" + cmd;
    if |param| > 0 {
      buffer[msglen] := '=';
      msglen := msglen + 1;
      assert buffer[..msglen] == ":" + cmd + "=";
      msglen := Copy(buffer, msglen, param);
      buffer[msglen] := ';';
      msglen := msglen + 1;
      assert buffer[..msglen] == ":" + cmd + "=" + param + ";";
    }
    sent := buffer[..msglen];
  }

  /** `memcpy(&buffer[at], s, |s|)`. */
  method Copy(buffer: array<char>, at: nat, s: string) returns (end: nat)
    requires at + |s| <= buffer.Length
    modifies buffer
    ensures end == at + |s|
    ensures buffer[..end] == old(buffer[..at]) + s
  {
    end := at;
    for i := 0 to |s|
      invariant end == at + i
      invariant buffer[..end] == old(buffer[..at]) + s[..i]
    {
      buffer[end] := s[i];
      assert buffer[..end + 1] == buffer[..end] + [s[i]];
      end := end + 1;
    }
    assert s[..|s|] == s;
  }
}
