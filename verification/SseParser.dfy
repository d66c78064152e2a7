/**
  The incremental server-sent-events parser: chunks of bytes in, dispatched events out, with the same
  result however the bytes are cut into chunks.
  */
module SseParser {
  import opened Wrappers
  import opened ByteStrings

  const MAX_LINE_BYTES: nat := 65536
  const MAX_EVENT_BYTES: nat := 262144
  const NEWLINE: byte := 10
  const RETURN: byte := 13

  datatype Event = Event(name: string, data: string, id: Option<string>)

  /** The fields of the event being accumulated. */
  datatype Fields = Fields(name: string, data: seq<string>, id: Option<string>, bytes: nat)

  const NO_FIELDS: Fields := Fields("", [], None, 0)

  // ----- one line ------------------------------------------------------------------

  function PositionOf(s: string, c: char): (i: nat)
    ensures i <= |s| && (i < |s| ==> s[i] == c) && forall k :: 0 <= k < i ==> s[k] != c
  {
    if s == "" || s[0] == c then 0 else 1 + PositionOf(s[1..], c)
  }

  /** The part of a line after its first colon, less one leading space. */
  function ValueOf(line: string): string {
    var i := PositionOf(line, ':');
    if i == |line| then ""
    else
      var v := line[i + 1..];
      if v != "" && v[0] == ' ' then v[1..] else v
  }

  function JoinLines(lines: seq<string>): string {
    if lines == [] then ""
    else if |lines| == 1 then lines[0]
    else JoinLines(lines[..|lines| - 1]) + "\n" + lines[|lines| - 1]
  }

  /** An `event`, `data` or `id` field; comments and other fields change nothing. */
  function TakeField(f: Fields, line: string): Fields {
    var name, value := line[..PositionOf(line, ':')], ValueOf(line);
    if line != "" && line[0] == ':' then f
    else if name == "event" then f.(name := value)
    else if name == "data" then f.(data := f.data + [value])
    else if name == "id" && '\0' !in value then f.(id := Some(value))
    else f
  }

  datatype LineResult = LineResult(fields: Fields, event: Option<Event>)

  /** Nothing has been accumulated that a blank line would dispatch. */
  predicate Idle(f: Fields) {
    f.name == "" && f.data == [] && f.id.None?
  }

  /** A blank line dispatches what has been accumulated, if anything. */
  function Dispatch(f: Fields): LineResult {
    if Idle(f) then LineResult(f, None)
    else LineResult(NO_FIELDS, Some(Event(if f.name == "" then "message" else f.name, JoinLines(f.data), f.id)))
  }

  /** None when the bytes counted for this event pass the limit. */
  function HandleLine(decode: Bytes -> string, f: Fields, raw: Bytes): Option<LineResult> {
    if raw == [] then Some(Dispatch(f))
    else if f.bytes + |raw| > MAX_EVENT_BYTES then None
    else Some(LineResult(TakeField(f.(bytes := f.bytes + |raw|), decode(raw)), None))
  }

  // ----- byte by byte --------------------------------------------------------------

  /** The parser between two bytes. */
  datatype State = State(buffer: Bytes, fields: Fields)

  datatype Progress = Progress(state: State, events: seq<Event>)

  function WithoutReturn(raw: Bytes): Bytes {
    if raw != [] && raw[|raw| - 1] == RETURN then raw[..|raw| - 1] else raw
  }

  function AsList(e: Option<Event>): seq<Event> {
    if e.Some? then [e.value] else []
  }

  /** A newline ends the line in the buffer; any other byte joins it, up to the limit. */
  function Step(decode: Bytes -> string, s: State, b: byte): Option<Progress> {
    if b == NEWLINE then
      var r := HandleLine(decode, s.fields, WithoutReturn(s.buffer));
      if r.None? then None else Some(Progress(State([], r.value.fields), AsList(r.value.event)))
    else if |s.buffer| >= MAX_LINE_BYTES then None
    else Some(Progress(State(s.buffer + [b], s.fields), []))
  }

  /** None stands for the protocol error that drops the connection. */
  function Run(decode: Bytes -> string, s: State, bytes: Bytes): Option<Progress>
    decreases |bytes|
  {
    if bytes == [] then Some(Progress(s, []))
    else
      var first := Step(decode, s, bytes[0]);
      if first.None? then None else After(first.value.events, Run(decode, first.value.state, bytes[1..]))
  }

  /** The same progress, with these events before its own. */
  function After(events: seq<Event>, p: Option<Progress>): Option<Progress> {
    if p.Some? then Some(Progress(p.value.state, events + p.value.events)) else None
  }

  lemma AfterAfter(a: seq<Event>, b: seq<Event>, p: Option<Progress>)
    ensures After(a, After(b, p)) == After(a + b, p)
  {
    if p.Some? {
      assert a + (b + p.value.events) == a + b + p.value.events;
    }
  }

  lemma AfterNothing(p: Option<Progress>)
    ensures After([], p) == p
  {
    if p.Some? {
      assert [] + p.value.events == p.value.events;
    }
  }

  lemma {:induction false} RunAppend(decode: Bytes -> string, s: State, a: Bytes, b: Bytes)
    ensures Run(decode, s, a + b)
            == match Run(decode, s, a)
               case None => None
               case Some(p) => After(p.events, Run(decode, p.state, b))
    decreases |a|
  {
    if a == [] {
      assert a + b == b;
      AfterNothing(Run(decode, s, b));
    } else {
      assert (a + b)[1..] == a[1..] + b;
      var first := Step(decode, s, a[0]);
      if first.Some? {
        RunAppend(decode, first.value.state, a[1..], b);
        var rest := Run(decode, first.value.state, a[1..]);
        if rest.Some? {
          AfterAfter(first.value.events, rest.value.events, Run(decode, rest.value.state, b));
        }
      }
    }
  }

  // ----- the parser ----------------------------------------------------------------

  predicate Pending(buffer: Bytes) {
    |buffer| <= MAX_LINE_BYTES && NEWLINE !in buffer
  }

  /** Bytes without a newline only fill the buffer, up to the limit. */
  lemma {:induction false} RunNoNewline(decode: Bytes -> string, s: State, bytes: Bytes)
    requires NEWLINE !in bytes && |s.buffer| <= MAX_LINE_BYTES
    ensures Run(decode, s, bytes)
            == if |s.buffer| + |bytes| > MAX_LINE_BYTES then None else Some(Progress(State(s.buffer + bytes, s.fields), []))
    decreases |bytes|
  {
    if bytes == [] {
      assert s.buffer + bytes == s.buffer;
    } else if |s.buffer| < MAX_LINE_BYTES {
      var next := State(s.buffer + [bytes[0]], s.fields);
      RunNoNewline(decode, next, bytes[1..]);
      AfterNothing(Run(decode, next, bytes[1..]));
      assert s.buffer + bytes == next.buffer + bytes[1..];
    }
  }

  /** What is in the buffer may as well be read again. */
  lemma Reread(decode: Bytes -> string, s: State, bytes: Bytes)
    requires Pending(s.buffer)
    ensures Run(decode, s, bytes) == Run(decode, State([], s.fields), s.buffer + bytes)
  {
    RunNoNewline(decode, State([], s.fields), s.buffer);
    RunAppend(decode, State([], s.fields), s.buffer, bytes);
    assert [] + s.buffer == s.buffer;
    AfterNothing(Run(decode, s, bytes));
  }

  lemma RunLine(decode: Bytes -> string, f: Fields, line: Bytes, rest: Bytes)
    requires NEWLINE !in line
    ensures Run(decode, State([], f), line + [NEWLINE] + rest)
            == if |line| > MAX_LINE_BYTES then None
               else match HandleLine(decode, f, WithoutReturn(line))
                    case None => None
                    case Some(r) => After(AsList(r.event), Run(decode, State([], r.fields), rest))
  {
    RunNoNewline(decode, State([], f), line);
    RunAppend(decode, State([], f), line, [NEWLINE] + rest);
    assert line + [NEWLINE] + rest == line + ([NEWLINE] + rest);
    if |line| <= MAX_LINE_BYTES {
      assert [] + line == line;
      var s := State(line, f);
      assert ([NEWLINE] + rest)[1..] == rest;
      AfterNothing(Run(decode, s, [NEWLINE] + rest));
    }
  }

  function FindNewline(buffer: Bytes): (i: int)
    ensures i == -1 <==> NEWLINE !in buffer
    ensures i != -1 ==> 0 <= i < |buffer| && buffer[i] == NEWLINE && forall k :: 0 <= k < i ==> buffer[k] != NEWLINE
  {
    if buffer == [] then -1
    else if buffer[0] == NEWLINE then 0
    else
      var i := FindNewline(buffer[1..]);
      assert buffer == [buffer[0]] + buffer[1..];
      if i == -1 then -1 else 1 + i
  }

  class Parser {
    const decode: Bytes -> string
    var buffer: Bytes
    var fields: Fields

    function Now(): State
      reads this
    {
      State(buffer, fields)
    }

    /** No newline waits in the buffer, and both limits hold. */
    predicate Valid()
      reads this
    {
      Pending(buffer) && fields.bytes <= MAX_EVENT_BYTES
    }

    constructor (decode: Bytes -> string)
      ensures Valid() && Now() == State([], NO_FIELDS) && this.decode == decode
    {
      this.decode := decode;
      buffer := [];
      fields := NO_FIELDS;
    }

    /** Parses the line; None on the event limit. */
    method HandleRaw(raw: Bytes) returns (r: Option<Option<Event>>)
      modifies this`fields
      requires fields.bytes <= MAX_EVENT_BYTES
      ensures match HandleLine(decode, old(fields), raw)
              case None => r == None
              case Some(l) => r == Some(l.event) && fields == l.fields && fields.bytes <= MAX_EVENT_BYTES
    {
      if |raw| == 0 {
        var l := Dispatch(fields);
        fields := l.fields;
        return Some(l.event);
      }
      if fields.bytes + |raw| > MAX_EVENT_BYTES {
        return None;
      }
      fields := fields.(bytes := fields.bytes + |raw|);
      fields := TakeField(fields, decode(raw));
      return Some(None);
    }

    /** Takes the lines that the chunk completes; None on a limit. */
    method Feed(chunk: Bytes) returns (r: Option<seq<Event>>)
      requires Valid()
      modifies this
      ensures match Run(decode, old(Now()), chunk)
              case None => r == None
              case Some(p) => r == Some(p.events) && Now() == p.state && Valid()
    {
      ghost var start := Now();
      var events: seq<Event> := [];
      Reread(decode, start, chunk);
      buffer := buffer + chunk;
      AfterNothing(Run(decode, State([], fields), buffer));
      while true
        invariant fields.bytes <= MAX_EVENT_BYTES
        invariant Run(decode, start, chunk) == After(events, Run(decode, State([], fields), buffer))
        decreases |buffer|
      {
        var newline := FindNewline(buffer);
        if newline == -1 {
          RunNoNewline(decode, State([], fields), buffer);
          assert [] + buffer == buffer && events + [] == events;
          if |buffer| > MAX_LINE_BYTES {
            return None;
          }
          return Some(events);
        }
        var line, rest := buffer[..newline], buffer[newline + 1..];
        assert buffer == line + [NEWLINE] + rest;
        RunLine(decode, fields, line, rest);
        if newline > MAX_LINE_BYTES {
          return None;
        }
        buffer := rest;
        ghost var parsed := HandleLine(decode, fields, WithoutReturn(line));
        var event := HandleRaw(WithoutReturn(line));
        if event.None? {
          return None;
        }
        AfterAfter(events, AsList(event.value), Run(decode, State([], fields), rest));
        events := events + AsList(event.value);
      }
    }
  }

  // ----- chunking ------------------------------------------------------------------

  /** Feeding the pieces one after the other. */
  function RunPieces(decode: Bytes -> string, s: State, pieces: seq<Bytes>): Option<Progress>
    decreases |pieces|
  {
    if pieces == [] then Some(Progress(s, []))
    else
      var p := Run(decode, s, pieces[0]);
      if p.None? then None else After(p.value.events, RunPieces(decode, p.value.state, pieces[1..]))
  }

  /** However the bytes are cut, feeding the pieces gives what the bytes as one chunk give. */
  lemma {:induction false} ChunkingIrrelevant(decode: Bytes -> string, s: State, pieces: seq<Bytes>)
    ensures RunPieces(decode, s, pieces) == Run(decode, s, Concat(pieces))
    decreases |pieces|
  {
    if pieces != [] {
      RunAppend(decode, s, pieces[0], Concat(pieces[1..]));
      var p := Run(decode, s, pieces[0]);
      if p.Some? {
        ChunkingIrrelevant(decode, p.value.state, pieces[1..]);
      }
    }
  }

  /** Feeds a whole partition to one parser. */
  method FeedPieces(decode: Bytes -> string, pieces: seq<Bytes>) returns (r: Option<seq<Event>>)
    ensures match Run(decode, State([], NO_FIELDS), Concat(pieces))
            case None => r == None
            case Some(p) => r == Some(p.events)
  {
    var parser := new Parser(decode);
    var events: seq<Event> := [];
    ghost var start := State([], NO_FIELDS);
    ChunkingIrrelevant(decode, start, pieces);
    assert pieces[0..] == pieces;
    AfterNothing(RunPieces(decode, start, pieces));
    for i := 0 to |pieces|
      invariant fresh(parser) && parser.Valid() && parser.decode == decode
      invariant RunPieces(decode, start, pieces) == After(events, RunPieces(decode, parser.Now(), pieces[i..]))
    {
      assert pieces[i..][1..] == pieces[i + 1..];
      var more := parser.Feed(pieces[i]);
      if more.None? {
        return None;
      }
      AfterAfter(events, more.value, RunPieces(decode, parser.Now(), pieces[i + 1..]));
      events := events + more.value;
    }
    assert events + [] == events;
    return Some(events);
  }

  // ----- what is counted -----------------------------------------------------------

  /** A blank line, or one that decodes to a comment; either may end in a return. */
  predicate IsComment(decode: Bytes -> string, line: Bytes) {
    && NEWLINE !in line
    && (WithoutReturn(line) == [] || (decode(WithoutReturn(line)) != "" && decode(WithoutReturn(line))[0] == ':'))
  }

  predicate AreComments(decode: Bytes -> string, lines: seq<Bytes>) {
    forall i :: 0 <= i < |lines| ==> IsComment(decode, lines[i])
  }

  predicate IsBlank(line: Bytes) { WithoutReturn(line) == [] }

  predicate NoneBlank(lines: seq<Bytes>) {
    forall i :: 0 <= i < |lines| ==> !IsBlank(lines[i])
  }

  predicate LinesFit(lines: seq<Bytes>) {
    forall i :: 0 <= i < |lines| ==> |lines[i]| <= MAX_LINE_BYTES
  }

  function Joined(lines: seq<Bytes>): Bytes {
    if lines == [] then [] else lines[0] + [NEWLINE] + Joined(lines[1..])
  }

  /** The bytes of all lines, without their line ends. */
  function Counted(lines: seq<Bytes>): nat {
    if lines == [] then 0 else |WithoutReturn(lines[0])| + Counted(lines[1..])
  }

  /** One such line only adds to the count. */
  lemma CommentLine(decode: Bytes -> string, f: Fields, line: Bytes)
    requires IsComment(decode, line) && f.bytes <= MAX_EVENT_BYTES && (Idle(f) || !IsBlank(line))
    ensures HandleLine(decode, f, WithoutReturn(line))
            == if f.bytes + |WithoutReturn(line)| <= MAX_EVENT_BYTES
               then Some(LineResult(f.(bytes := f.bytes + |WithoutReturn(line)|), None))
               else None
  {
    if IsBlank(line) {
      assert f.(bytes := f.bytes + 0) == f;
    }
  }

  lemma FirstOfLines(decode: Bytes -> string, line: Bytes, rest: seq<Bytes>, lines: seq<Bytes>)
    requires lines == [line] + rest
    ensures AreComments(decode, lines) <==> IsComment(decode, line) && AreComments(decode, rest)
    ensures IsComment(decode, line) ==> NEWLINE !in line
    ensures NoneBlank(lines) <==> !IsBlank(line) && NoneBlank(rest)
    ensures LinesFit(lines) <==> |line| <= MAX_LINE_BYTES && LinesFit(rest)
    ensures Joined(lines) == line + [NEWLINE] + Joined(rest) && Counted(lines) == |WithoutReturn(line)| + Counted(rest)
  {
    hide IsBlank, WithoutReturn;
    assert lines[0] == line && lines[1..] == rest;
    assert forall i :: 0 <= i < |rest| ==> rest[i] == lines[i + 1];
    assert forall i :: 0 < i < |lines| ==> lines[i] == rest[i - 1];
  }

  /**
    Comments are not ignored: with no event pending, blank lines between them included, they are
    accepted exactly while every line fits and their bytes add up to at most the event limit; with an
    event pending, comments without a blank line count against that event in the same way.
    */
  lemma {:induction false} CommentsExhaust(decode: Bytes -> string, f: Fields, lines: seq<Bytes>)
    requires AreComments(decode, lines) && f.bytes <= MAX_EVENT_BYTES && (Idle(f) || NoneBlank(lines))
    ensures Run(decode, State([], f), Joined(lines))
            == if LinesFit(lines) && f.bytes + Counted(lines) <= MAX_EVENT_BYTES
               then Some(Progress(State([], f.(bytes := f.bytes + Counted(lines))), []))
               else None
    decreases |lines|
  {
    hide Run, HandleLine, AreComments, NoneBlank, LinesFit, IsComment, IsBlank, WithoutReturn, Idle;
    if lines == [] {
      NoLines(decode, f);
    } else {
      var line, rest := lines[0], lines[1..];
      var g := f.(bytes := f.bytes + |WithoutReturn(line)|);
      FirstOfLines(decode, line, rest, lines);
      CommentLine(decode, f, line);
      RunLine(decode, f, line, Joined(rest));
      if g.bytes <= MAX_EVENT_BYTES {
        SameIdle(f, g);
        CommentsExhaust(decode, g, rest);
        AfterNothing(Run(decode, State([], g), Joined(rest)));
      }
    }
  }

  lemma NoLines(decode: Bytes -> string, f: Fields)
    ensures LinesFit([]) && Run(decode, State([], f), Joined([])) == Some(Progress(State([], f.(bytes := f.bytes + Counted([]))), []))
  {
    assert f.(bytes := f.bytes + 0) == f;
  }

  lemma SameIdle(f: Fields, g: Fields)
    requires g == f.(bytes := g.bytes)
    ensures Idle(f) <==> Idle(g)
  {
  }

  /** The blank line that dispatches a pending event starts the count again. */
  lemma CommentsAroundDispatch(decode: Bytes -> string, f: Fields, before: seq<Bytes>, blank: Bytes, after: seq<Bytes>)
    requires AreComments(decode, before) && NoneBlank(before) && IsComment(decode, blank) && IsBlank(blank)
    requires AreComments(decode, after) && f.bytes <= MAX_EVENT_BYTES && !Idle(f)
    ensures Run(decode, State([], f), Joined(before) + (blank + [NEWLINE] + Joined(after))).Some?
            <==> && LinesFit(before)
                 && LinesFit(after)
                 && f.bytes + Counted(before) <= MAX_EVENT_BYTES
                 && Counted(after) <= MAX_EVENT_BYTES
  {
    hide Run, AreComments, NoneBlank, LinesFit, Joined, Counted;
    CommentsExhaust(decode, f, before);
    RunAppend(decode, State([], f), Joined(before), blank + [NEWLINE] + Joined(after));
    RunLine(decode, f.(bytes := f.bytes + Counted(before)), blank, Joined(after));
    CommentsExhaust(decode, NO_FIELDS, after);
  }
}
