/** The relay of `POST /api/oraculo` in `server/index.js`: the upstream reply
    arrives in chunks of text, is cut into lines at '\n' with the unfinished tail
    kept in a buffer, and each complete `data: ` line yields one event for the
    client. This is a small subset of the event-stream format of section 9.2.5
    of the WHATWG HTML Standard. Also here: the sentence that tells the model
    which lines are changing, with 1-based line numbers. */
module EventStream {
  import opened Wrappers
  import opened Text

  // ---------------------------------------------------------------------------
  // Line buffer
  // ---------------------------------------------------------------------------

  /** An event written to the client: a piece of text, the final `[DONE]`, or an
      `{error}` object, after which the response ends. */
  datatype Event = Text(text: string) | Done | Error(message: string)

  /** What `JSON.parse(data)` and `parsed.choices?.[0]?.delta?.content || ''` make
      of a payload: it does not parse (the line is skipped), the access throws
      (a payload of `null`), or the content, "" when absent. */
  datatype Payload = Unparsed | Throws | Parsed(content: string)

  /** What one complete line does. */
  datatype Step = Skip | Write(text: string) | Abort

  /** Events written, and whether an exception ended the loop. */
  datatype Emitted = Emitted(events: seq<Event>, aborted: bool)

  /** The loop's state: the unfinished last line and what has been written. */
  datatype Relay = Relay(buffer: string, sent: Emitted)

  const Start: Relay := Relay("", Emitted([], false))

  /** The message of the `catch` block. */
  const OracleError := "Error al consultar el or\U{00E1}culo"

  /** The message written when the upstream status is not OK. */
  function UpstreamError(status: int): string {
    "Error de OpenAI (" + IntString(status) + ")"
  }

  /** The payload of a `data: ` line. */
  function Data(line: string): string
    requires StartsWith(line, "data: ")
  {
    Trim(line[6..], IsJsSpace)
  }

  /** A `data: ` line other than `[DONE]`. */
  predicate Carries(line: string) {
    StartsWith(line, "data: ") && Data(line) != "[DONE]"
  }

  /** What one complete line does. `payload` stands for parsing the data. */
  function ProcessLine(line: string, payload: string -> Payload): (r: Step)
    ensures r.Write? <==> Carries(line) && payload(Data(line)).Parsed? && payload(Data(line)).content != ""
    ensures r.Write? ==> r.text == payload(Data(line)).content
    ensures r.Abort? <==> Carries(line) && payload(Data(line)).Throws?
  {
    if !StartsWith(line, "data: ") then Skip
    else
      var data := Data(line);
      if data == "[DONE]" then Skip
      else
        match payload(data)
        case Unparsed => Skip
        case Throws => Abort
        case Parsed(text) => if text != "" then Write(text) else Skip
  }

  /** One line's outcome as a run of its own. */
  function Once(line: string, payload: string -> Payload): Emitted {
    match ProcessLine(line, payload)
    case Skip => Emitted([], false)
    case Write(t) => Emitted([Text(t)], false)
    case Abort => Emitted([], true)
  }

  /** Running `y` after `x`: nothing of `y` once `x` has thrown. */
  function Then(x: Emitted, y: Emitted): Emitted {
    if x.aborted then x else Emitted(x.events + y.events, y.aborted)
  }

  /** The lines of a run, in order, up to the first that throws. */
  function Emit(lines: seq<string>, payload: string -> Payload): Emitted
    decreases |lines|
  {
    if lines == [] then Emitted([], false) else Then(Once(lines[0], payload), Emit(lines[1..], payload))
  }

  lemma ThenAssoc(x: Emitted, y: Emitted, z: Emitted)
    ensures Then(x, Then(y, z)) == Then(Then(x, y), z)
  {
    if !x.aborted && !y.aborted {
      SeqAssoc(x.events, y.events, z.events);
    }
  }

  lemma EmitCons(line: string, rest: seq<string>, payload: string -> Payload)
    ensures Emit([line] + rest, payload) == Then(Once(line, payload), Emit(rest, payload))
  {
    assert ([line] + rest)[0] == line && ([line] + rest)[1..] == rest;
  }

  /** Processing two runs of lines is processing the first, then, unless it
      threw, the second. */
  lemma {:induction false} EmitAppend(a: seq<string>, b: seq<string>, payload: string -> Payload)
    ensures Emit(a + b, payload) == Then(Emit(a, payload), Emit(b, payload))
    decreases |a|
  {
    if a != [] {
      EmitAppend(a[1..], b, payload);
      EmitAppendStep(a[0], a[1..], b, payload);
      ConsAppend(a, b);
    } else {
      assert a + b == b;
    }
  }

  /** The inductive step of `EmitAppend`. */
  lemma EmitAppendStep(line: string, rest: seq<string>, b: seq<string>, payload: string -> Payload)
    requires Emit(rest + b, payload) == Then(Emit(rest, payload), Emit(b, payload))
    ensures Emit([line] + (rest + b), payload) == Then(Emit([line] + rest, payload), Emit(b, payload))
  {
    EmitCons(line, rest + b, payload);
    EmitCons(line, rest, payload);
    ThenAssoc(Once(line, payload), Emit(rest, payload), Emit(b, payload));
  }

  lemma ConsAppend<T>(a: seq<T>, b: seq<T>)
    requires a != []
    ensures a == [a[0]] + a[1..] && a + b == [a[0]] + (a[1..] + b)
  {
  }

  lemma SeqAssoc<T>(x: seq<T>, y: seq<T>, z: seq<T>)
    ensures x + (y + z) == (x + y) + z
  {
  }

  /** A line whose payload throws ends the run: what came before it is written,
      and nothing after it is. */
  lemma AbortStops(before: seq<string>, line: string, after: seq<string>, payload: string -> Payload)
    requires !Emit(before, payload).aborted
    requires ProcessLine(line, payload).Abort?
    ensures Emit(before + [line] + after, payload) == Emitted(Emit(before, payload).events, true)
  {
    EmitAppend(before + [line], after, payload);
    EmitAppend(before, [line], payload);
    EmitCons(line, [], payload);
  }

  /** A run writes only text events. */
  lemma {:induction false} EmitWritesText(lines: seq<string>, payload: string -> Payload)
    ensures forall k :: 0 <= k < |Emit(lines, payload).events| ==> Emit(lines, payload).events[k].Text?
    decreases |lines|
  {
    if lines != [] {
      EmitWritesText(lines[1..], payload);
      ThenWritesText(Once(lines[0], payload), Emit(lines[1..], payload));
    }
  }

  predicate AllText(e: Emitted) {
    forall k :: 0 <= k < |e.events| ==> e.events[k].Text?
  }

  lemma ThenWritesText(x: Emitted, y: Emitted)
    requires AllText(x) && AllText(y)
    ensures AllText(Then(x, y))
  {
  }

  /** All but the last piece. */
  function Complete(pieces: seq<string>): seq<string>
    requires |pieces| >= 1
  {
    pieces[..|pieces| - 1]
  }

  /** One chunk: `buffer += chunk; lines = buffer.split('\n'); buffer = lines.pop() || ''`,
      then each line in turn. Once a line has thrown no more chunks are read. */
  function Feed(r: Relay, chunk: string, payload: string -> Payload): Relay {
    if r.sent.aborted then r
    else
      var lines := Split(r.buffer + chunk, '\n');
      Relay(lines[|lines| - 1], Then(r.sent, Emit(Complete(lines), payload)))
  }

  function Concat(chunks: seq<string>): string
    decreases |chunks|
  {
    if chunks == [] then "" else Concat(chunks[..|chunks| - 1]) + chunks[|chunks| - 1]
  }

  /** The state after the chunks received so far. */
  function FeedAll(chunks: seq<string>, payload: string -> Payload): Relay
    decreases |chunks|
  {
    if chunks == [] then Start
    else Feed(FeedAll(chunks[..|chunks| - 1], payload), chunks[|chunks| - 1], payload)
  }

  /** However the text is cut into chunks, what has been written is what the
      complete lines of the whole text yield, each once, in order, up to the first
      that throws; until one throws, the buffer holds exactly the text after the
      last '\n' received. */
  lemma {:induction false} FeedAllSpec(chunks: seq<string>, payload: string -> Payload)
    ensures var pieces := Split(Concat(chunks), '\n');
            && FeedAll(chunks, payload).sent == Emit(Complete(pieces), payload)
            && (!FeedAll(chunks, payload).sent.aborted ==> FeedAll(chunks, payload).buffer == pieces[|pieces| - 1])
    decreases |chunks|
  {
    if chunks != [] {
      var init := chunks[..|chunks| - 1];
      var chunk := chunks[|chunks| - 1];
      FeedAllSpec(init, payload);
      var p := Split(Concat(init), '\n');
      var lines := Split(p[|p| - 1] + chunk, '\n');
      SplitAppendPieces(Concat(init), chunk, '\n');
      EmitAppend(Complete(p), Complete(lines), payload);
    }
  }

  /** Splitting more text: the complete pieces so far, then those of the old
      last piece followed by the new text. */
  lemma SplitAppendPieces(s: string, chunk: string, c: char)
    ensures var p := Split(s, c);
            var lines := Split(p[|p| - 1] + chunk, c);
            var whole := Split(s + chunk, c);
            && Complete(whole) == Complete(p) + Complete(lines)
            && whole[|whole| - 1] == lines[|lines| - 1]
  {
    var p := Split(s, c);
    SplitAppend(s, chunk, c);
    CompleteAfter(p, Split(p[|p| - 1] + chunk, c), Split(s + chunk, c));
  }

  /** The pieces of `whole` are the complete pieces of `p`, then `lines`. */
  lemma CompleteAfter(p: seq<string>, lines: seq<string>, whole: seq<string>)
    requires |p| >= 1 && |lines| >= 1
    requires whole == p[..|p| - 1] + lines
    ensures Complete(whole) == Complete(p) + Complete(lines)
    ensures whole[|whole| - 1] == lines[|lines| - 1]
  {
    assert whole[..|whole| - 1] == p[..|p| - 1] + lines[..|lines| - 1];
  }

  /** Until a line throws, the buffer never holds a line break, and the text
      received ends with it. */
  lemma BufferIsTail(chunks: seq<string>, payload: string -> Payload)
    requires !FeedAll(chunks, payload).sent.aborted
    ensures '\n' !in FeedAll(chunks, payload).buffer
    ensures var b := FeedAll(chunks, payload).buffer;
            |b| <= |Concat(chunks)| && Concat(chunks)[|Concat(chunks)| - |b|..] == b
  {
    var s := Concat(chunks);
    var pieces := Split(s, '\n');
    var b := FeedAll(chunks, payload).buffer;
    FeedAllSpec(chunks, payload);
    assert b == pieces[|pieces| - 1];
    SplitPiecesLackSeparator(s, '\n');
    assert '\n' !in pieces[|pieces| - 1];
    JoinSplit(s, '\n');
    JoinEndsWithLast(pieces, ['\n']);
  }

  lemma {:induction false} JoinEndsWithLast(parts: seq<string>, sep: string)
    requires |parts| >= 1
    ensures var j := Join(parts, sep);
            var last := parts[|parts| - 1];
            |last| <= |j| && j[|j| - |last|..] == last
    decreases |parts|
  {
    if |parts| > 1 {
      JoinEndsWithLast(parts[1..], sep);
    }
  }

  /** Where the chunk boundaries fall makes no difference to what is written. */
  lemma ChunkingInvisible(chunks: seq<string>, payload: string -> Payload)
    ensures FeedAll(chunks, payload).sent == FeedAll([Concat(chunks)], payload).sent
    ensures !FeedAll(chunks, payload).sent.aborted ==> FeedAll(chunks, payload) == FeedAll([Concat(chunks)], payload)
  {
    var s := Concat(chunks);
    var pieces := Split(s, '\n');
    FeedAllSpec(chunks, payload);
    FeedWhole(s, payload);
    SameRelay(FeedAll(chunks, payload), FeedAll([s], payload),
              Emit(Complete(pieces), payload), pieces[|pieces| - 1]);
  }

  /** Two states that agree with the same output, and with the same buffer
      unless it threw. */
  lemma SameRelay(r1: Relay, r2: Relay, sent: Emitted, buffer: string)
    requires r1.sent == sent && r2.sent == sent
    requires !sent.aborted ==> r1.buffer == buffer
    requires r2.buffer == buffer
    ensures r1.sent == r2.sent
    ensures !r1.sent.aborted ==> r1 == r2
  {
  }

  /** The text received in one piece. */
  lemma FeedWhole(s: string, payload: string -> Payload)
    ensures var pieces := Split(s, '\n');
            && FeedAll([s], payload).sent == Emit(Complete(pieces), payload)
            && FeedAll([s], payload).buffer == pieces[|pieces| - 1]
  {
    assert [s][..0] == [];
    assert Concat([s]) == s;
    var e := Emit(Complete(Split(s, '\n')), payload);
    assert [] + e.events == e.events;
  }

  /** Text without a '\n' only grows the buffer: no event is written for it, so
      a last line the upstream never terminates is not relayed. */
  lemma UnterminatedLineHeld(chunks: seq<string>, tail: string, payload: string -> Payload)
    requires '\n' !in tail
    ensures FeedAll(chunks + [tail], payload).sent == FeedAll(chunks, payload).sent
    ensures !FeedAll(chunks, payload).sent.aborted ==>
              FeedAll(chunks + [tail], payload).buffer == FeedAll(chunks, payload).buffer + tail
  {
    var r := FeedAll(chunks, payload);
    assert (chunks + [tail])[..|chunks|] == chunks;
    if !r.sent.aborted {
      BufferIsTail(chunks, payload);
      var s := r.buffer + tail;
      assert '\n' !in s;
      assert Split(s, '\n') == [s];
    }
  }

  // ---------------------------------------------------------------------------
  // The response
  // ---------------------------------------------------------------------------

  /** The upstream request: it fails before a reply, or the reply has a status,
      a body received in chunks, and whether reading it fails after them. */
  datatype Upstream = Unreachable | Reply(status: int, chunks: seq<string>, broken: bool)

  /** `Response.ok`. */
  predicate Ok(status: int) {
    200 <= status <= 299
  }

  /** The events written for an upstream outcome: an error for a status that is
      not OK; otherwise the relayed text, then `[DONE]`, or the `catch` block's
      error when a line or the reading threw. An unfinished last line still in the
      buffer is dropped. */
  function Respond(u: Upstream, payload: string -> Payload): seq<Event> {
    match u
    case Unreachable => [Error(OracleError)]
    case Reply(status, chunks, broken) =>
      if !Ok(status) then [Error(UpstreamError(status))]
      else
        var r := FeedAll(chunks, payload);
        if r.sent.aborted || broken then r.sent.events + [Error(OracleError)]
        else r.sent.events + [Done]
  }

  /** Every response is text events closed by exactly one `[DONE]` or error;
      `[DONE]` comes exactly when the reply was OK and nothing threw, and then the
      text is what the complete lines of the body yield. A status that is not OK
      writes only its error. */
  lemma RespondShape(u: Upstream, payload: string -> Payload)
    ensures var ev := Respond(u, payload);
            && |ev| >= 1
            && (forall k :: 0 <= k < |ev| - 1 ==> ev[k].Text?)
            && (ev[|ev| - 1].Done? || ev[|ev| - 1].Error?)
    ensures Respond(u, payload)[|Respond(u, payload)| - 1].Done? <==>
              u.Reply? && Ok(u.status) && !u.broken
              && !Emit(Complete(Split(Concat(u.chunks), '\n')), payload).aborted
    ensures u.Reply? && Ok(u.status) ==>
              var ev := Respond(u, payload);
              ev[..|ev| - 1] == Emit(Complete(Split(Concat(u.chunks), '\n')), payload).events
    ensures u.Reply? && !Ok(u.status) ==> Respond(u, payload) == [Error(UpstreamError(u.status))]
  {
    if u.Reply? && Ok(u.status) {
      var pieces := Split(Concat(u.chunks), '\n');
      FeedAllSpec(u.chunks, payload);
      EmitWritesText(Complete(pieces), payload);
      var ev := Respond(u, payload);
      assert ev[..|ev| - 1] == FeedAll(u.chunks, payload).sent.events;
    }
  }

  // ---------------------------------------------------------------------------
  // The changing-lines sentence
  // ---------------------------------------------------------------------------

  /** `lineasMutantes.map(i => i + 1)`, each number rendered as by `String`. */
  function Numbers(xs: seq<int>): (r: seq<string>)
    ensures |r| == |xs|
    decreases |xs|
  {
    if xs == [] then [] else [IntString(xs[0] + 1)] + Numbers(xs[1..])
  }

  /** `lineasMutantes.map(i => i + 1).join(', ')`. */
  function IndexList(xs: seq<int>): string {
    Join(Numbers(xs), ", ")
  }

  /** `mutacionInfo`. `lineasMutantes` is `None` when the body has none; a missing
      or empty mutated name falls back to a generic phrase. */
  function MutacionInfo(isEn: bool, lineasMutantes: Option<seq<int>>, nombreMutado: Option<string>): string {
    if lineasMutantes.Some? && |lineasMutantes.value| > 0 then
      var list := IndexList(lineasMutantes.value);
      if isEn then
        "Lines " + list + " are changing, transforming the hexagram towards "
        + (if nombreMutado.Some? && nombreMutado.value != "" then nombreMutado.value else "a state of change") + "."
      else
        "Las l\U{00ED}neas " + list + " est\U{00E1}n en mutaci\U{00F3}n, transformando el hexagrama hacia "
        + (if nombreMutado.Some? && nombreMutado.value != "" then nombreMutado.value else "un estado de cambio") + "."
    else if isEn then "The hexagram is stable, with no changing lines."
    else "El hexagrama es estable, sin l\U{00ED}neas en mutaci\U{00F3}n."
  }

  /** Reads a list written by `IndexList` back: each comma-separated number minus one. */
  function ParseIndexList(s: string): Option<seq<int>> {
    ParsePieces(Split(s, ','))
  }

  function ParsePieces(pieces: seq<string>): Option<seq<int>>
    decreases |pieces|
  {
    if pieces == [] then Some([])
    else
      match ParseInt(pieces[0], false)
      case None => None
      case Some(v) =>
        match ParsePieces(pieces[1..])
        case None => None
        case Some(rest) => Some([v - 1] + rest)
  }

  /** Numbers after the first as `IndexList` leaves them once its text is split
      at ',': each with the space of ", " in front. */
  function Spaced(ys: seq<nat>): (r: seq<string>)
    ensures |r| == |ys|
    decreases |ys|
  {
    if ys == [] then [] else [" " + DecimalString(ys[0] + 1)] + Spaced(ys[1..])
  }

  function SpacedPieces(xs: seq<nat>): seq<string>
    requires |xs| >= 1
  {
    [DecimalString(xs[0] + 1)] + Spaced(xs[1..])
  }

  /** Prefixing the first piece prefixes the join. */
  lemma JoinSpacedHead(rs: seq<string>, sep: string)
    requires |rs| >= 1
    ensures Join([" " + rs[0]] + rs[1..], sep) == " " + Join(rs, sep)
  {
    if |rs| > 1 {
      JoinCons(" " + rs[0], rs[1..], sep);
      JoinCons(rs[0], rs[1..], sep);
      assert rs == [rs[0]] + rs[1..];
    } else {
      assert [" " + rs[0]] + rs[1..] == [" " + rs[0]];
    }
  }

  lemma {:induction false} IndexListSpaced(xs: seq<nat>)
    requires |xs| >= 1
    ensures IndexList(xs) == Join(SpacedPieces(xs), ",")
    decreases |xs|
  {
    var n0 := DecimalString(xs[0] + 1);
    if |xs| == 1 {
      assert Numbers(xs) == [n0];
      assert SpacedPieces(xs) == [n0];
    } else {
      var t := xs[1..];
      IndexListSpaced(t);
      var j := Join(SpacedPieces(t), ",");
      assert Numbers(xs) == [n0] + Numbers(t);
      JoinCons(n0, Numbers(t), ", ");
      assert IndexList(xs) == n0 + ", " + j;
      assert Spaced(t) == [" " + SpacedPieces(t)[0]] + SpacedPieces(t)[1..];
      JoinSpacedHead(SpacedPieces(t), ",");
      JoinCons(n0, Spaced(t), ",");
      assert Join(SpacedPieces(xs), ",") == n0 + "," + (" " + j);
      assert n0 + ", " + j == n0 + "," + (" " + j);
    }
  }

  lemma ParsePiecesCons(p: string, ps: seq<string>, v: int, vs: seq<int>)
    requires ParseInt(p, false) == Some(v) && ParsePieces(ps) == Some(vs)
    ensures ParsePieces([p] + ps) == Some([v - 1] + vs)
  {
    assert ([p] + ps)[0] == p;
    assert ([p] + ps)[1..] == ps;
  }

  /** `parseInt` skips the leading space. */
  lemma ParseSpaced(n: nat)
    ensures ParseInt(" " + DecimalString(n), false) == Some(n)
  {
    var d := DecimalString(n);
    assert TrimStart(" " + d, IsJsSpace) == d by {
      assert (" " + d)[1..] == d;
      assert !IsJsSpace(d[0]);
    }
    ParseSignedDecimal(n, false);
  }

  lemma {:induction false} ParseSpacedTail(ys: seq<nat>)
    ensures ParsePieces(Spaced(ys)) == Some(ys)
    decreases |ys|
  {
    if ys != [] {
      ParseSpacedTail(ys[1..]);
      ParseSpacedCons(ys[0], ys[1..]);
      assert [ys[0]] + ys[1..] == ys;
    }
  }

  /** `Spaced` of a list with head `y`. */
  lemma SpacedCons(y: nat, tail: seq<nat>)
    ensures Spaced([y] + tail) == [" " + DecimalString(y + 1)] + Spaced(tail)
  {
    assert ([y] + tail)[0] == y && ([y] + tail)[1..] == tail;
  }

  /** The inductive step of `ParseSpacedTail`. */
  lemma ParseSpacedCons(y: nat, tail: seq<nat>)
    requires ParsePieces(Spaced(tail)) == Some(tail)
    ensures ParsePieces(Spaced([y] + tail)) == Some([y] + tail)
  {
    SpacedCons(y, tail);
    ParseSpaced(y + 1);
    ParsePiecesCons(" " + DecimalString(y + 1), Spaced(tail), y + 1, tail);
  }

  /** The pieces of a list with head `x` read back as the list. */
  lemma ParseSpacedPieces(x: nat, tail: seq<nat>)
    ensures ParsePieces(SpacedPieces([x] + tail)) == Some([x] + tail)
  {
    assert ([x] + tail)[0] == x && ([x] + tail)[1..] == tail;
    assert SpacedPieces([x] + tail) == [DecimalString(x + 1)] + Spaced(tail);
    ParseDecimalString(x + 1, false);
    ParseSpacedTail(tail);
    ParsePiecesCons(DecimalString(x + 1), Spaced(tail), x + 1, tail);
  }

  /** No piece holds a comma. */
  lemma {:induction false} SpacedLacksComma(ys: seq<nat>)
    ensures forall k :: 0 <= k < |Spaced(ys)| ==> ',' !in Spaced(ys)[k]
    decreases |ys|
  {
    if ys != [] {
      SpacedLacksComma(ys[1..]);
      var d := DecimalString(ys[0] + 1);
      assert ',' !in " " + d;
      forall k | 0 <= k < |Spaced(ys)| ensures ',' !in Spaced(ys)[k] {
        if k > 0 { assert Spaced(ys)[k] == Spaced(ys[1..])[k - 1]; }
      }
    }
  }

  /** The sentence numbers lines from 1: reading its list back and subtracting one
      recovers the 0-based positions sent by the client. */
  lemma IndexListRoundTrip(xs: seq<nat>)
    requires |xs| >= 1
    ensures ParseIndexList(IndexList(xs)) == Some(xs)
  {
    IndexListSpaced(xs);
    var qs := SpacedPieces(xs);
    SpacedLacksComma(xs[1..]);
    forall k | 0 <= k < |qs| ensures ',' !in qs[k] {
      if k == 0 {
        assert ',' !in DecimalString(xs[0] + 1);
      } else {
        assert qs[k] == Spaced(xs[1..])[k - 1];
      }
    }
    SplitJoin(qs, ',');
    ParseSpacedPieces(xs[0], xs[1..]);
    assert [xs[0]] + xs[1..] == xs;
  }

  /** The sentence mentions changing lines exactly when the list is non-empty. */
  lemma MutacionInfoStable(isEn: bool, lineasMutantes: Option<seq<int>>, nombreMutado: Option<string>)
    ensures (lineasMutantes.None? || lineasMutantes.value == []) ==>
              MutacionInfo(isEn, lineasMutantes, nombreMutado)
              == if isEn then "The hexagram is stable, with no changing lines."
                 else "El hexagrama es estable, sin l\U{00ED}neas en mutaci\U{00F3}n."
    ensures lineasMutantes.Some? && lineasMutantes.value != [] ==>
              StartsWith(MutacionInfo(isEn, lineasMutantes, nombreMutado),
                         (if isEn then "Lines " else "Las l\U{00ED}neas ") + IndexList(lineasMutantes.value))
  {
    if lineasMutantes.Some? && lineasMutantes.value != [] {
      MutacionInfoChanging(isEn, lineasMutantes.value, nombreMutado);
    }
  }

  /** With changing lines the sentence opens with them. */
  lemma MutacionInfoChanging(isEn: bool, xs: seq<int>, nombreMutado: Option<string>)
    requires xs != []
    ensures StartsWith(MutacionInfo(isEn, Some(xs), nombreMutado),
                       (if isEn then "Lines " else "Las l\U{00ED}neas ") + IndexList(xs))
  {
    var p := (if isEn then "Lines " else "Las l\U{00ED}neas ") + IndexList(xs);
    var m := MutacionInfo(isEn, Some(xs), nombreMutado);
    var rest := m[|p|..];
    assert m == p + rest;
    PrefixOf(p, rest);
  }

  lemma PrefixOf(p: string, q: string)
    ensures StartsWith(p + q, p)
  {
    assert (p + q)[..|p|] == p;
  }
}
