/** What a written event frame is parsed to: its name, its data lines and its id, and nothing else. */
module SseFrames {
  import opened Wrappers
  import opened ByteStrings
  import opened SseParser

  datatype Field = EventField(text: string) | DataField(text: string) | IdField(text: string)

  /** A field with or without a space after its colon, ended by LF or CRLF. */
  datatype Written = Written(field: Field, space: bool, crlf: bool)

  function FieldName(f: Field): string {
    match f
    case EventField(_) => "event"
    case DataField(_) => "data"
    case IdField(_) => "id"
  }

  function LineOf(w: Written): string {
    FieldName(w.field) + ":" + (if w.space then " " else "") + w.field.text
  }

  function Ending(crlf: bool): Bytes {
    if crlf then [13, 10] else [10]
  }

  function LineBytes(encode: string -> Bytes, w: Written): Bytes {
    encode(LineOf(w)) + Ending(w.crlf)
  }

  /** The fields, one a line, and the blank line that ends the frame. */
  function FrameBytes(encode: string -> Bytes, ws: seq<Written>, crlf: bool): Bytes {
    FlatMap((w: Written) => LineBytes(encode, w), ws) + Ending(crlf)
  }

  /** The line survives encoding and decoding, is one line, and its text does not begin with the optional space. */
  predicate Writable(encode: string -> Bytes, decode: Bytes -> string, w: Written) {
    var b := encode(LineOf(w));
    && decode(b) == LineOf(w)
    && b != []
    && NEWLINE !in b
    && b[|b| - 1] != RETURN
    && |b| < MAX_LINE_BYTES
    && (w.space || w.field.text == "" || w.field.text[0] != ' ')
  }

  predicate AllWritable(encode: string -> Bytes, decode: Bytes -> string, ws: seq<Written>) {
    forall i :: 0 <= i < |ws| ==> Writable(encode, decode, ws[i])
  }

  function EncodedSize(encode: string -> Bytes, ws: seq<Written>): nat {
    if ws == [] then 0 else EncodedSize(encode, ws[..|ws| - 1]) + |encode(LineOf(ws[|ws| - 1]))|
  }

  // ----- what a frame says ---------------------------------------------------------

  /** The text of the last event field, or empty. */
  function NameOf(ws: seq<Written>): string {
    if ws == [] then ""
    else if ws[|ws| - 1].field.EventField? then ws[|ws| - 1].field.text
    else NameOf(ws[..|ws| - 1])
  }

  /** The texts of the data fields, in order. */
  function DataOf(ws: seq<Written>): seq<string> {
    if ws == [] then []
    else if ws[|ws| - 1].field.DataField? then DataOf(ws[..|ws| - 1]) + [ws[|ws| - 1].field.text]
    else DataOf(ws[..|ws| - 1])
  }

  /** The text of the last id field without a NUL, if there is one. */
  function IdOf(ws: seq<Written>): Option<string> {
    if ws == [] then None
    else if ws[|ws| - 1].field.IdField? && '\0' !in ws[|ws| - 1].field.text then Some(ws[|ws| - 1].field.text)
    else IdOf(ws[..|ws| - 1])
  }

  /** The lines with one LF between each and the next. */
  function WithLf(lines: seq<string>): string {
    if lines == [] then "" else if |lines| == 1 then lines[0] else lines[0] + "\n" + WithLf(lines[1..])
  }

  // ----- one line ------------------------------------------------------------------

  lemma SplitsAtColon(name: string, tail: string, line: string)
    requires line == name + ":" + tail && ':' !in name
    ensures PositionOf(line, ':') == |name| && line[..|name|] == name && line[|name| + 1..] == tail
  {
    hide PositionOf;
    var i := PositionOf(line, ':');
    assert line[|name|] == ':';
    assert forall k :: 0 <= k < |name| ==> line[k] == name[k];
  }

  /** Name and value are read back as written. */
  lemma LineParts(w: Written)
    requires w.space || w.field.text == "" || w.field.text[0] != ' '
    ensures LineOf(w) != "" && LineOf(w)[0] != ':'
    ensures PositionOf(LineOf(w), ':') <= |LineOf(w)| && LineOf(w)[..PositionOf(LineOf(w), ':')] == FieldName(w.field)
    ensures ValueOf(LineOf(w)) == w.field.text
  {
    hide PositionOf, ValueOf;
    var name := FieldName(w.field);
    var tail := (if w.space then " " else "") + w.field.text;
    var line := name + ":" + tail;
    PlainName(w.field);
    hide FieldName;
    SplitsAtColon(name, tail, line);
    assert LineOf(w) == line by {
      assert name + ":" + (if w.space then " " else "") + w.field.text == name + ":" + ((if w.space then " " else "") + w.field.text);
    }
    assert line[0] == name[0];
    ValueBehind(line, tail, w.space, w.field.text);
  }

  lemma ValueBehind(line: string, tail: string, space: bool, text: string)
    requires PositionOf(line, ':') < |line| && line[PositionOf(line, ':') + 1..] == tail
    requires tail == (if space then " " else "") + text && (space || text == "" || text[0] != ' ')
    ensures ValueOf(line) == text
  {
    hide PositionOf;
    if space {
      assert tail[0] == ' ' && tail[1..] == text;
    } else {
      assert tail == text;
    }
  }

  lemma PlainName(f: Field)
    ensures FieldName(f) != "" && ':' !in FieldName(f)
  {
  }

  /** A written line sets, adds or keeps exactly its own field. */
  lemma LineTaken(f: Fields, w: Written)
    requires w.space || w.field.text == "" || w.field.text[0] != ' '
    ensures TakeField(f, LineOf(w))
            == match w.field
               case EventField(text) => f.(name := text)
               case DataField(text) => f.(data := f.data + [text])
               case IdField(text) => if '\0' in text then f else f.(id := Some(text))
  {
    hide PositionOf, ValueOf, LineOf;
    LineParts(w);
    NamesDiffer();
  }

  lemma NamesDiffer()
    ensures "data" != "event" && "id" != "event" && "id" != "data"
  {
    assert |"data"| == 4 && |"event"| == 5 && |"id"| == 2;
  }

  lemma LineHandled(encode: string -> Bytes, decode: Bytes -> string, f: Fields, w: Written, rest: Bytes)
    requires Writable(encode, decode, w) && f.bytes + |encode(LineOf(w))| <= MAX_EVENT_BYTES
    ensures Run(decode, State([], f), LineBytes(encode, w) + rest)
            == Run(decode, State([], TakeField(f.(bytes := f.bytes + |encode(LineOf(w))|), LineOf(w))), rest)
  {
    hide Run, LineOf, TakeField, Dispatch;
    var b := encode(LineOf(w));
    var line := if w.crlf then b + [RETURN] else b;
    assert LineBytes(encode, w) + rest == line + [NEWLINE] + rest;
    assert WithoutReturn(line) == b by {
      assert w.crlf ==> line[..|line| - 1] == b;
    }
    RunLine(decode, f, line, rest);
    AfterNothing(Run(decode, State([], TakeField(f.(bytes := f.bytes + |b|), LineOf(w))), rest));
  }

  lemma BlankHandled(decode: Bytes -> string, f: Fields, crlf: bool)
    ensures Run(decode, State([], f), Ending(crlf)) == Some(Progress(State([], Dispatch(f).fields), AsList(Dispatch(f).event)))
  {
    hide Dispatch;
    var line: Bytes := if crlf then [RETURN] else [];
    assert Ending(crlf) == line + [NEWLINE] + [];
    RunLine(decode, f, line, []);
    assert AsList(Dispatch(f).event) + [] == AsList(Dispatch(f).event);
  }

  // ----- whole frames --------------------------------------------------------------

  function FieldsOf(encode: string -> Bytes, ws: seq<Written>): Fields {
    Fields(NameOf(ws), DataOf(ws), IdOf(ws), EncodedSize(encode, ws))
  }

  lemma FieldsOneMore(encode: string -> Bytes, ws: seq<Written>, init: seq<Written>, w: Written)
    requires ws == init + [w] && (w.space || w.field.text == "" || w.field.text[0] != ' ')
    ensures EncodedSize(encode, ws) == EncodedSize(encode, init) + |encode(LineOf(w))|
    ensures var f := FieldsOf(encode, init);
            TakeField(f.(bytes := f.bytes + |encode(LineOf(w))|), LineOf(w)) == FieldsOf(encode, ws)
  {
    assert ws[..|ws| - 1] == init && ws[|ws| - 1] == w;
    var f := FieldsOf(encode, init);
    LineTaken(f.(bytes := f.bytes + |encode(LineOf(w))|), w);
  }

  lemma {:induction false} LinesHandled(encode: string -> Bytes, decode: Bytes -> string, ws: seq<Written>, rest: Bytes)
    requires AllWritable(encode, decode, ws) && EncodedSize(encode, ws) <= MAX_EVENT_BYTES
    ensures Run(decode, State([], NO_FIELDS), FlatMap((w: Written) => LineBytes(encode, w), ws) + rest)
            == Run(decode, State([], FieldsOf(encode, ws)), rest)
    decreases |ws|
  {
    hide Run, TakeField, LineOf, Writable, LineBytes;
    var f := (w: Written) => LineBytes(encode, w);
    if ws == [] {
      assert FlatMap(f, ws) + rest == rest;
      assert FieldsOf(encode, ws) == NO_FIELDS;
    } else {
      var init, w := ws[..|ws| - 1], ws[|ws| - 1];
      assert ws == init + [w];
      assert Writable(encode, decode, w);
      NoExtraSpace(encode, decode, w);
      FieldsOneMore(encode, ws, init, w);
      LinesHandled(encode, decode, init, LineBytes(encode, w) + rest);
      LineHandled(encode, decode, FieldsOf(encode, init), w, rest);
      FlatMapLast(f, init, w);
      assert FlatMap(f, ws) + rest == FlatMap(f, init) + (LineBytes(encode, w) + rest);
    }
  }

  lemma NoExtraSpace(encode: string -> Bytes, decode: Bytes -> string, w: Written)
    requires Writable(encode, decode, w)
    ensures w.space || w.field.text == "" || w.field.text[0] != ' '
  {
  }

  lemma {:induction false} WithLfLast(lines: seq<string>, last: string)
    requires lines != []
    ensures WithLf(lines + [last]) == WithLf(lines) + "\n" + last
    decreases |lines|
  {
    if |lines| == 1 {
      assert (lines + [last])[1..] == [last];
    } else {
      WithLfLast(lines[1..], last);
      assert (lines + [last])[1..] == lines[1..] + [last];
      var head, tail := lines[0] + "\n", WithLf(lines[1..]);
      assert head + (tail + "\n" + last) == head + tail + "\n" + last;
    }
  }

  lemma {:induction false} JoinedWithLf(lines: seq<string>)
    ensures JoinLines(lines) == WithLf(lines)
    decreases |lines|
  {
    if |lines| > 1 {
      var init, last := lines[..|lines| - 1], lines[|lines| - 1];
      JoinedWithLf(init);
      WithLfLast(init, last);
      assert lines == init + [last];
    }
  }

  /**
    Whatever fields a frame holds, in whatever order and spelling: it is parsed to one event with the
    last name, "message" without one, the data lines joined by LF and the last id, and the parser is as
    new; a frame without any of the three gives no event and only counts.
    */
  lemma FrameParsed(encode: string -> Bytes, decode: Bytes -> string, ws: seq<Written>, crlf: bool)
    requires AllWritable(encode, decode, ws) && EncodedSize(encode, ws) <= MAX_EVENT_BYTES
    ensures Run(decode, State([], NO_FIELDS), FrameBytes(encode, ws, crlf))
            == if NameOf(ws) == "" && DataOf(ws) == [] && IdOf(ws) == None
               then Some(Progress(State([], Fields("", [], None, EncodedSize(encode, ws))), []))
               else Some(Progress(State([], Fields("", [], None, 0)),
                                  [Event(if NameOf(ws) == "" then "message" else NameOf(ws), WithLf(DataOf(ws)), IdOf(ws))]))
  {
    hide Run, AllWritable;
    LinesHandled(encode, decode, ws, Ending(crlf));
    BlankHandled(decode, FieldsOf(encode, ws), crlf);
    JoinedWithLf(DataOf(ws));
  }

  // ----- ASCII frames --------------------------------------------------------------

  predicate PlainText(s: string) {
    forall i :: 0 <= i < |s| ==> s[i] as int < 128 && s[i] != '\n' && s[i] != '\r'
  }

  /** Each byte as one character. */
  function FromAscii(b: Bytes): (s: string)
    ensures |s| == |b|
    ensures forall i :: 0 <= i < |b| ==> s[i] == b[i] as char
  {
    if b == [] then "" else FromAscii(b[..|b| - 1]) + [b[|b| - 1] as char]
  }

  lemma {:induction false} AsciiAt(s: string, i: nat)
    requires i < |s|
    ensures Ascii(s)[i] == s[i] as int % 256
    decreases |s|
  {
    if i < |s| - 1 {
      AsciiAt(s[..|s| - 1], i);
    }
  }

  /** Every ASCII line without LF and CR that fits can be written. */
  lemma AsciiWritable(w: Written)
    requires PlainText(w.field.text) && |w.field.text| < MAX_LINE_BYTES - 8
    requires w.space || w.field.text == "" || w.field.text[0] != ' '
    ensures Writable(Ascii, FromAscii, w)
  {
    hide Ascii, FromAscii;
    var s := LineOf(w);
    assert PlainText(s) by {
      LineIsPlain(w);
    }
    forall i | 0 <= i < |s| ensures Ascii(s)[i] == s[i] as int && FromAscii(Ascii(s))[i] == s[i] {
      AsciiAt(s, i);
    }
    assert FromAscii(Ascii(s)) == s;
    assert |s| > 0;
  }

  lemma LineIsPlain(w: Written)
    requires PlainText(w.field.text)
    ensures PlainText(LineOf(w))
  {
    var head := FieldName(w.field) + ":" + (if w.space then " " else "");
    assert PlainText(head);
    assert LineOf(w) == head + w.field.text;
  }
}
