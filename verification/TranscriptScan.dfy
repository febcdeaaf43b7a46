/**
  One pass over a transcript from a byte cursor (`ingest_transcript` in
  `src/ingest.rs`).  JSON is an uninterpreted parse function on line contents.
*/
module TranscriptScan {
  import opened Options
  import opened LineReader

  type File = seq<Byte>

  /** Metadata inherited from `session_meta` records, and carried by observations. */
  datatype Context = Context(
    codexVersion: Option<string>,
    modelSlug: Option<string>,
    serviceTier: Option<string>,
    planType: Option<string>)

  const NO_CONTEXT: Context := Context(None, None, None, None)

  function OrElse(value: Option<string>, inherited: Option<string>): Option<string> {
    if value.Some? then value else inherited
  }

  /** A field's own value, or else the inherited one. */
  function Merge(own: Context, inherited: Context): Context {
    Context(OrElse(own.codexVersion, inherited.codexVersion),
            OrElse(own.modelSlug, inherited.modelSlug),
            OrElse(own.serviceTier, inherited.serviceTier),
            OrElse(own.planType, inherited.planType))
  }

  /** The measured content of an observation and of its weekly snapshot; abstract here. */
  datatype Reading = Reading(observation: int, snapshot: Option<int>, own: Context)

  datatype Parsed =
    | SessionMeta(context: Context)
    | Irrelevant
    | Relevant(reading: Option<Reading>, diagnostics: seq<string>, invalid: bool)

  type Parser = seq<Byte> -> Option<Parsed>

  datatype Record = Record(offset: nat, observation: int, snapshot: Option<int>, metadata: Context)

  datatype Diagnostic = Diagnostic(offset: nat, code: string)

  datatype Batch = Batch(
    records: seq<Record>,
    diagnostics: seq<Diagnostic>,
    next: nat,
    incompleteTail: bool,
    malformed: nat,
    oversized: nat,
    invalid: nat,
    irrelevant: nat,
    context: Context)

  function StripCarriageReturn(line: seq<Byte>): seq<Byte> {
    if line != [] && line[|line| - 1] == CARRIAGE_RETURN then line[..|line| - 1] else line
  }

  /** The batch of a pass that stops at `offset` without reading anything. */
  function Nothing(offset: nat, tail: bool, context: Context): Batch {
    Batch([], [], offset, tail, 0, 0, 0, 0, context)
  }

  /** Two consecutive passes as one. */
  function Plus(a: Batch, b: Batch): Batch {
    Batch(a.records + b.records, a.diagnostics + b.diagnostics, b.next, b.incompleteTail,
          a.malformed + b.malformed, a.oversized + b.oversized, a.invalid + b.invalid,
          a.irrelevant + b.irrelevant, b.context)
  }

  lemma PlusAssociative(a: Batch, b: Batch, c: Batch)
    ensures Plus(Plus(a, b), c) == Plus(a, Plus(b, c))
  {
  }

  lemma NothingPlus(offset: nat, tail: bool, context: Context, b: Batch)
    ensures Plus(Nothing(offset, tail, context), b) == b
  {
  }

  function DiagnosticsAt(offset: nat, codes: seq<string>): seq<Diagnostic> {
    seq(|codes|, i requires 0 <= i < |codes| => Diagnostic(offset, codes[i]))
  }

  /** What one consumed line contributes. */
  function Entry(offset: nat, next: nat, record: BoundedRecord, parsed: Option<Parsed>, context: Context): Batch {
    var nothing := Nothing(next, false, context);
    if record.oversized then
      nothing.(diagnostics := [Diagnostic(offset, "oversized_record")], oversized := 1, invalid := 1)
    else
      match parsed
      case None => nothing.(malformed := 1)
      case Some(SessionMeta(meta)) => nothing.(irrelevant := 1, context := Merge(meta, context))
      case Some(Irrelevant) => nothing.(irrelevant := 1)
      case Some(Relevant(reading, codes, invalid)) =>
        nothing.(records := if reading.None? then []
                            else [Record(offset, reading.value.observation, reading.value.snapshot,
                                         Merge(reading.value.own, context))],
                 diagnostics := DiagnosticsAt(offset, codes),
                 invalid := if invalid then 1 else 0)
  }

  /** An unparseable line that ends where the file ended when its length was sampled is left for the next pass. */
  predicate IsIncompleteTail(fileLen: nat, next: nat, record: BoundedRecord, parsed: Option<Parsed>) {
    !record.oversized && parsed.None? && next == fileLen
  }

  function LineAt(file: File, offset: nat): BoundedRecord
    requires offset <= |file|
  {
    RecordAt(file[offset..])
  }

  function ParsedAt(parse: Parser, file: File, offset: nat): Option<Parsed>
    requires offset <= |file|
  {
    parse(StripCarriageReturn(LineAt(file, offset).bytes))
  }

  /** The first line of a pass, taken apart. */
  function FirstEntry(parse: Parser, file: File, offset: nat, context: Context): (entry: Batch)
    requires offset < |file|
    ensures offset < entry.next <= |file|
  {
    Entry(offset, offset + LineAt(file, offset).bytesRead, LineAt(file, offset), ParsedAt(parse, file, offset), context)
  }

  predicate StopsAt(parse: Parser, file: File, fileLen: nat, offset: nat)
    requires offset < |file|
  {
    IsIncompleteTail(fileLen, offset + LineAt(file, offset).bytesRead, LineAt(file, offset), ParsedAt(parse, file, offset))
  }

  /** The whole pass over what the file holds when it is read; its length was sampled before. */
  function Scan(parse: Parser, file: File, fileLen: nat, offset: nat, context: Context): Batch
    requires offset <= |file|
    decreases |file| - offset
  {
    if offset == |file| then Nothing(offset, false, context)
    else if StopsAt(parse, file, fileLen, offset) then Nothing(offset, true, context)
    else
      var entry := FirstEntry(parse, file, offset, context);
      Plus(entry, Scan(parse, file, fileLen, entry.next, entry.context))
  }

  function StartOffset(fileLen: nat, cursor: nat): nat {
    if cursor > fileLen then 0 else cursor
  }

  /** A pass as the source runs it: the metadata context always starts empty. */
  function Ingested(parse: Parser, file: File, fileLen: nat, cursor: nat): Batch {
    var start := StartOffset(fileLen, cursor);
    if start <= |file| then Scan(parse, file, fileLen, start, NO_CONTEXT) else Nothing(start, false, NO_CONTEXT)
  }

  /** What is read so far, completed by a pass over the rest, is the whole pass. */
  ghost predicate OnTheWay(parse: Parser, file: File, fileLen: nat, cursor: nat, batch: Batch) {
    && batch.next <= |file|
    && !batch.incompleteTail
    && Plus(batch, Scan(parse, file, fileLen, batch.next, batch.context)) == Ingested(parse, file, fileLen, cursor)
  }

  lemma OnTheWayAtEnd(parse: Parser, file: File, fileLen: nat, cursor: nat, batch: Batch)
    requires OnTheWay(parse, file, fileLen, cursor, batch) && batch.next == |file|
    ensures batch == Ingested(parse, file, fileLen, cursor)
  {
  }

  lemma OnTheWayTail(parse: Parser, file: File, fileLen: nat, cursor: nat, batch: Batch)
    requires OnTheWay(parse, file, fileLen, cursor, batch) && batch.next < |file|
    requires StopsAt(parse, file, fileLen, batch.next)
    ensures batch.(incompleteTail := true) == Ingested(parse, file, fileLen, cursor)
  {
  }

  lemma ScanSplits(parse: Parser, file: File, fileLen: nat, offset: nat, context: Context)
    requires offset < |file| && !StopsAt(parse, file, fileLen, offset)
    ensures var entry := FirstEntry(parse, file, offset, context);
            Scan(parse, file, fileLen, offset, context)
            == Plus(entry, Scan(parse, file, fileLen, entry.next, entry.context))
  {
  }

  lemma OnTheWayEntry(parse: Parser, file: File, fileLen: nat, cursor: nat, batch: Batch, entry: Batch)
    requires OnTheWay(parse, file, fileLen, cursor, batch) && batch.next < |file|
    requires !StopsAt(parse, file, fileLen, batch.next) && entry == FirstEntry(parse, file, batch.next, batch.context)
    requires !entry.incompleteTail
    ensures OnTheWay(parse, file, fileLen, cursor, Plus(batch, entry))
  {
    var rest := Scan(parse, file, fileLen, entry.next, entry.context);
    ScanSplits(parse, file, fileLen, batch.next, batch.context);
    PlusAssociative(batch, entry, rest);
    var more := Plus(batch, entry);
    assert more.next == entry.next && more.context == entry.context;
  }

  datatype LineOutcome = EndOfFile | IncompleteTail | Line(entry: Batch)

  /** One turn of the loop: the next line read, parsed and turned into its contribution. */
  method ReadLine(parse: Parser, fileLen: nat, reader: BufferedReader, context: Context) returns (outcome: LineOutcome)
    requires reader.Valid()
    modifies reader`pos
    ensures reader.Valid()
    ensures outcome.EndOfFile? <==> old(reader.pos) == |reader.data|
    ensures outcome.IncompleteTail? ==> StopsAt(parse, reader.data, fileLen, old(reader.pos))
    ensures outcome.Line? ==>
              && !StopsAt(parse, reader.data, fileLen, old(reader.pos))
              && outcome.entry == FirstEntry(parse, reader.data, old(reader.pos), context)
              && reader.pos == outcome.entry.next
  {
    var lineOffset := reader.pos;
    var record := ReadBoundedRecord(reader);
    assert record == LineAt(reader.data, lineOffset);
    if record.bytesRead == 0 {
      return EndOfFile;
    }
    var lineEnd := lineOffset + record.bytesRead;
    var parsed := parse(StripCarriageReturn(record.bytes));
    if !record.oversized && parsed.None? && lineEnd == fileLen {
      return IncompleteTail;
    }
    outcome := Line(Entry(lineOffset, lineEnd, record, parsed, context));
  }

  /** `fileLen` is sampled when the file is opened; `file` is what the reads then deliver. */
  method IngestTranscript(parse: Parser, file: File, fileLen: nat, cursor: nat) returns (batch: Batch)
    ensures batch == Ingested(parse, file, fileLen, cursor)
  {
    var startOffset := if cursor > fileLen then 0 else cursor;
    batch := Nothing(startOffset, false, NO_CONTEXT);
    if startOffset > |file| {
      return;
    }
    var reader := new BufferedReader(file, startOffset);
    NothingPlus(startOffset, false, NO_CONTEXT, Scan(parse, file, fileLen, startOffset, NO_CONTEXT));
    while true
      invariant fresh(reader) && reader.Valid()
      invariant reader.data == file && reader.pos == batch.next
      invariant OnTheWay(parse, file, fileLen, cursor, batch)
      decreases |file| - batch.next
    {
      var outcome := ReadLine(parse, fileLen, reader, batch.context);
      match outcome {
        case EndOfFile =>
          OnTheWayAtEnd(parse, file, fileLen, cursor, batch);
          break;
        case IncompleteTail =>
          OnTheWayTail(parse, file, fileLen, cursor, batch);
          batch := batch.(incompleteTail := true);
          break;
        case Line(entry) =>
          OnTheWayEntry(parse, file, fileLen, cursor, batch, entry);
          batch := Plus(batch, entry);
      }
    }
  }
}
