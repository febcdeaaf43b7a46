/**
  A pass over a transcript, line by line (`ingest_transcript` in `src/ingest.rs`):
  where the metadata of each record comes from, and that every line read is
  accounted for once.
*/
module TranscriptLines {
  import opened Options
  import opened LineReader
  import opened TranscriptScan

  datatype LineRead = LineRead(offset: nat, next: nat, oversized: bool, parsed: Option<Parsed>)

  function LineOf(parse: Parser, file: File, offset: nat): (line: LineRead)
    requires offset < |file|
    ensures offset < line.next <= |file|
  {
    LineRead(offset, FirstEntry(parse, file, offset, NO_CONTEXT).next, LineAt(file, offset).oversized,
             ParsedAt(parse, file, offset))
  }

  /** The lines a pass consumes. */
  function Lines(parse: Parser, file: File, fileLen: nat, offset: nat): seq<LineRead>
    requires offset <= |file|
    decreases |file| - offset
  {
    if offset == |file| || StopsAt(parse, file, fileLen, offset) then []
    else
      var line := LineOf(parse, file, offset);
      [line] + Lines(parse, file, fileLen, line.next)
  }

  // ----- Metadata -----

  datatype Field = CodexVersion | ModelSlug | ServiceTier | PlanType

  function Get(c: Context, f: Field): Option<string> {
    match f
    case CodexVersion => c.codexVersion
    case ModelSlug => c.modelSlug
    case ServiceTier => c.serviceTier
    case PlanType => c.planType
  }

  /** The line is a `session_meta` record that carries the field. */
  predicate Announces(line: LineRead, f: Field) {
    !line.oversized && line.parsed.Some? && line.parsed.value.SessionMeta? && Get(line.parsed.value.context, f).Some?
  }

  function Announced(line: LineRead, f: Field): Option<string> {
    if Announces(line, f) then Get(line.parsed.value.context, f) else None
  }

  /** What the nearest announcement before line `i` says of the field, or else what the pass began with. */
  function Inherited(lines: seq<LineRead>, i: nat, f: Field, start: Context): Option<string>
    requires i <= |lines|
  {
    if i == 0 then Get(start, f)
    else if Announces(lines[i - 1], f) then Announced(lines[i - 1], f)
    else Inherited(lines, i - 1, f, start)
  }

  /** The line has a reading, and the record is its content with its own metadata or else the inherited. */
  ghost predicate Describes(r: Record, lines: seq<LineRead>, i: nat, start: Context) {
    && i < |lines| && HasReading(lines[i])
    && var reading := lines[i].parsed.value.reading.value;
       && r.offset == lines[i].offset
       && r.observation == reading.observation && r.snapshot == reading.snapshot
       && forall f: Field :: Get(r.metadata, f)
            == if Get(reading.own, f).Some? then Get(reading.own, f) else Inherited(lines, i, f, start)
  }

  predicate HasReading(line: LineRead) {
    !line.oversized && line.parsed.Some? && line.parsed.value.Relevant? && line.parsed.value.reading.Some?
  }

  /** A line by itself: the record it yields, and what later lines inherit. */
  lemma LineByItself(parse: Parser, file: File, offset: nat, start: Context)
    requires offset < |file|
    ensures var entry, line := FirstEntry(parse, file, offset, start), LineOf(parse, file, offset);
            && entry.next == line.next
            && (forall f: Field :: Get(entry.context, f)
                  == if Announces(line, f) then Announced(line, f) else Get(start, f))
            && |entry.records| == (if HasReading(line) then 1 else 0)
            && (HasReading(line) ==> Describes(entry.records[0], [line], 0, start))
  {
  }

  lemma {:induction false} InheritedLater(line: LineRead, rest: seq<LineRead>, i: nat, f: Field, start: Context, after: Context)
    requires i <= |rest|
    requires Get(after, f) == if Announces(line, f) then Announced(line, f) else Get(start, f)
    ensures Inherited([line] + rest, i + 1, f, start) == Inherited(rest, i, f, after)
  {
    if i > 0 {
      InheritedLater(line, rest, i - 1, f, start, after);
    }
  }

  lemma {:induction false} DescribesLater(r: Record, line: LineRead, rest: seq<LineRead>, i: nat, start: Context, after: Context)
    requires Describes(r, rest, i, after)
    requires forall f: Field :: Get(after, f) == if Announces(line, f) then Announced(line, f) else Get(start, f)
    ensures Describes(r, [line] + rest, i + 1, start)
  {
    forall f: Field ensures Inherited([line] + rest, i + 1, f, start) == Inherited(rest, i, f, after) {
      InheritedLater(line, rest, i, f, start, after);
    }
  }

  lemma DescribesFirst(r: Record, line: LineRead, rest: seq<LineRead>, start: Context)
    requires Describes(r, [line], 0, start)
    ensures Describes(r, [line] + rest, 0, start)
  {
  }

  /** The records of a pass describe lines it read. */
  ghost predicate AllDescribed(records: seq<Record>, lines: seq<LineRead>, start: Context) {
    forall r :: r in records ==> exists i: nat :: Describes(r, lines, i, start)
  }

  lemma JoinDescribed(first: seq<Record>, others: seq<Record>, line: LineRead, rest: seq<LineRead>, start: Context, after: Context)
    requires |first| == (if HasReading(line) then 1 else 0)
    requires HasReading(line) ==> Describes(first[0], [line], 0, start)
    requires AllDescribed(others, rest, after)
    requires forall f: Field :: Get(after, f) == if Announces(line, f) then Announced(line, f) else Get(start, f)
    ensures AllDescribed(first + others, [line] + rest, start)
  {
    forall r | r in first + others ensures exists i: nat :: Describes(r, [line] + rest, i, start) {
      if r in first {
        DescribesFirst(r, line, rest, start);
      } else {
        var i: nat :| Describes(r, rest, i, after);
        DescribesLater(r, line, rest, i, start, after);
      }
    }
  }

  /**
    Each metadata field of a record is its own, or else that of the nearest
    earlier `session_meta` line of the pass that carries the field, or else missing.
  */
  lemma {:induction false} MetadataIsNearest(parse: Parser, file: File, fileLen: nat, offset: nat, start: Context)
    requires offset <= |file|
    ensures AllDescribed(Scan(parse, file, fileLen, offset, start).records, Lines(parse, file, fileLen, offset), start)
    decreases |file| - offset
  {
    if offset < |file| && !StopsAt(parse, file, fileLen, offset) {
      var entry, line := FirstEntry(parse, file, offset, start), LineOf(parse, file, offset);
      LineByItself(parse, file, offset, start);
      MetadataIsNearest(parse, file, fileLen, entry.next, entry.context);
      var rest := Scan(parse, file, fileLen, entry.next, entry.context);
      JoinDescribed(entry.records, rest.records, line, Lines(parse, file, fileLen, line.next), start, entry.context);
    }
  }

  /** Line `j` is the nearest announcement of the field before line `i`; -1 if there is none. */
  ghost predicate NearestBefore(lines: seq<LineRead>, i: int, f: Field, j: int) {
    && -1 <= j < i <= |lines|
    && (j >= 0 ==> Announces(lines[j], f))
    && forall k :: j < k < i ==> !Announces(lines[k], f)
  }

  /** The source starts every pass without metadata, so a field is that of the nearest announcement or missing. */
  lemma {:induction false} InheritedIsNearest(lines: seq<LineRead>, i: nat, f: Field, j: int)
    requires NearestBefore(lines, i, f, j)
    ensures Inherited(lines, i, f, NO_CONTEXT) == if j >= 0 then Announced(lines[j], f) else None
  {
    if i > 0 && j < i - 1 {
      assert !Announces(lines[i - 1], f);
      InheritedIsNearest(lines, i - 1, f, j);
    }
  }

  /** A cursor past the end of the file starts over; otherwise a pass begins at the cursor. */
  lemma {:induction false} PassStartsOver(parse: Parser, file: File, cursor: nat)
    ensures var b := Ingested(parse, file, |file|, cursor);
            var start := if cursor > |file| then 0 else cursor;
            && AllDescribed(b.records, Lines(parse, file, |file|, start), NO_CONTEXT)
            && (forall r :: r in b.records ==> start <= r.offset < b.next <= |file|)
  {
    var start := if cursor > |file| then 0 else cursor;
    MetadataIsNearest(parse, file, |file|, start, NO_CONTEXT);
    RecordsWithin(parse, file, |file|, start, NO_CONTEXT);
  }

  lemma {:induction false} RecordsWithin(parse: Parser, file: File, fileLen: nat, offset: nat, start: Context)
    requires offset <= |file|
    ensures var b := Scan(parse, file, fileLen, offset, start);
            offset <= b.next <= |file| && forall r :: r in b.records ==> offset <= r.offset < b.next
    decreases |file| - offset
  {
    if offset < |file| && !StopsAt(parse, file, fileLen, offset) {
      var entry := FirstEntry(parse, file, offset, start);
      RecordsWithin(parse, file, fileLen, entry.next, entry.context);
      assert forall r :: r in entry.records ==> r.offset == offset;
    }
  }

  /** A carriage return before the newline is not part of the line. */
  lemma CarriageReturnIsInvisible(parse: Parser, before: File, line: seq<Byte>, after: File)
    requires NEWLINE !in line && |line| < MAX_RECORD && (line != [] ==> line[|line| - 1] != CARRIAGE_RETURN)
    ensures var plain, returned := before + (line + [NEWLINE] + after), before + (line + [CARRIAGE_RETURN, NEWLINE] + after);
            && ParsedAt(parse, plain, |before|) == ParsedAt(parse, returned, |before|) == parse(line)
            && !LineAt(plain, |before|).oversized && !LineAt(returned, |before|).oversized
  {
    var rest, more := line + [NEWLINE] + after, line + [CARRIAGE_RETURN, NEWLINE] + after;
    assert (before + rest)[|before|..] == rest && (before + more)[|before|..] == more;
    ContentIs(rest, line);
    assert more == line + [CARRIAGE_RETURN] + [NEWLINE] + after;
    ContentIs(more, line + [CARRIAGE_RETURN]);
    assert (line + [CARRIAGE_RETURN])[..|line|] == line;
  }

  lemma ContentIs(rest: seq<Byte>, line: seq<Byte>)
    requires NEWLINE !in line && |line| <= MAX_RECORD
    requires |line| < |rest| && rest[..|line|] == line && rest[|line|] == NEWLINE
    ensures RecordAt(rest).bytes == line && !RecordAt(rest).oversized
  {
    ContentLenUnique(rest, |line|);
  }

  // ----- Accounting for every line -----

  datatype Fate = TooLong | Unparseable | OfNoInterest | TokenCount

  function FateOf(line: LineRead): Fate {
    if line.oversized then TooLong
    else if line.parsed.None? then Unparseable
    else if line.parsed.value.Relevant? then TokenCount
    else OfNoInterest
  }

  function CountFate(lines: seq<LineRead>, fate: Fate): nat {
    if lines == [] then 0 else (if FateOf(lines[0]) == fate then 1 else 0) + CountFate(lines[1..], fate)
  }

  function CountReadings(lines: seq<LineRead>): nat {
    if lines == [] then 0 else (if HasReading(lines[0]) then 1 else 0) + CountReadings(lines[1..])
  }

  /** Token counts marked invalid. */
  function CountFlagged(lines: seq<LineRead>): nat {
    if lines == [] then 0
    else (if FateOf(lines[0]).TokenCount? && lines[0].parsed.value.invalid then 1 else 0) + CountFlagged(lines[1..])
  }

  lemma {:induction false} EveryLineHasOneFate(lines: seq<LineRead>)
    ensures CountFate(lines, TooLong) + CountFate(lines, Unparseable) + CountFate(lines, OfNoInterest)
              + CountFate(lines, TokenCount) == |lines|
  {
    if lines != [] {
      EveryLineHasOneFate(lines[1..]);
    }
  }

  /**
    A pass counts every line it reads once: as oversized, malformed, irrelevant or
    a token count, and it has one record for each token count with a reading.
    Oversized lines and flagged token counts are what it counts as invalid, and
    its diagnostics are those of its lines, in order, each at its line's offset.
  */
  lemma {:induction false} LinesAreCounted(parse: Parser, file: File, fileLen: nat, offset: nat, start: Context)
    requires offset <= |file|
    ensures var b, lines := Scan(parse, file, fileLen, offset, start), Lines(parse, file, fileLen, offset);
            && b.oversized == CountFate(lines, TooLong)
            && b.malformed == CountFate(lines, Unparseable)
            && b.irrelevant == CountFate(lines, OfNoInterest)
            && b.invalid == CountFate(lines, TooLong) + CountFlagged(lines)
            && |b.records| == CountReadings(lines)
            && b.diagnostics == DiagnosticsOf(lines)
    decreases |file| - offset
  {
    if offset < |file| && !StopsAt(parse, file, fileLen, offset) {
      var entry, line := FirstEntry(parse, file, offset, start), LineOf(parse, file, offset);
      var rest := Lines(parse, file, fileLen, line.next);
      LinesAreCounted(parse, file, fileLen, entry.next, entry.context);
      LineIsCounted(parse, file, offset, start);
      CountOneMore(line, rest);
      assert ([line] + rest)[1..] == rest;
    }
  }

  /** What a line is reported for: being oversized, or whatever is wrong with its token count. */
  function LineDiagnostics(line: LineRead): (diagnostics: seq<Diagnostic>)
    ensures forall d :: d in diagnostics ==> d.offset == line.offset
    ensures FateOf(line) == TooLong ==> diagnostics == [Diagnostic(line.offset, "oversized_record")]
    ensures FateOf(line) == TokenCount ==>
              && |diagnostics| == |line.parsed.value.diagnostics|
              && forall i :: 0 <= i < |diagnostics| ==> diagnostics[i].code == line.parsed.value.diagnostics[i]
    ensures FateOf(line) == Unparseable || FateOf(line) == OfNoInterest ==> diagnostics == []
  {
    match FateOf(line)
    case TooLong => [Diagnostic(line.offset, "oversized_record")]
    case TokenCount =>
      var codes := line.parsed.value.diagnostics;
      seq(|codes|, i requires 0 <= i < |codes| => Diagnostic(line.offset, codes[i]))
    case _ => []
  }

  function DiagnosticsOf(lines: seq<LineRead>): seq<Diagnostic> {
    if lines == [] then [] else LineDiagnostics(lines[0]) + DiagnosticsOf(lines[1..])
  }

  function One(b: bool): nat { if b then 1 else 0 }

  lemma LineIsCounted(parse: Parser, file: File, offset: nat, start: Context)
    requires offset < |file|
    ensures var entry, line := FirstEntry(parse, file, offset, start), LineOf(parse, file, offset);
            && entry.oversized == One(FateOf(line) == TooLong) && entry.malformed == One(FateOf(line) == Unparseable)
            && entry.irrelevant == One(FateOf(line) == OfNoInterest) && |entry.records| == One(HasReading(line))
            && entry.invalid == One(FateOf(line) == TooLong)
                                + One(FateOf(line) == TokenCount && line.parsed.value.invalid)
            && entry.next == line.next
            && entry.diagnostics == LineDiagnostics(line)
  {
  }

  lemma {:induction false} CountOneMore(line: LineRead, rest: seq<LineRead>)
    ensures var lines := [line] + rest;
            && (forall fate: Fate :: CountFate(lines, fate) == One(FateOf(line) == fate) + CountFate(rest, fate))
            && CountReadings(lines) == One(HasReading(line)) + CountReadings(rest)
            && CountFlagged(lines) == One(FateOf(line).TokenCount? && line.parsed.value.invalid) + CountFlagged(rest)
  {
    assert ([line] + rest)[1..] == rest;
  }
}
