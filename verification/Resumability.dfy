/**
  Resuming a pass from its cursor after the file has grown: exactly when two
  passes amount to one.
*/
module Resumability {
  import opened Options
  import opened LineReader
  import opened TranscriptScan

  /** The offset just after the last newline. */
  function LastBreak(file: File): (n: nat)
    ensures n <= |file|
  {
    if file == [] then 0
    else if file[|file| - 1] == NEWLINE then |file|
    else LastBreak(file[..|file| - 1])
  }

  lemma {:induction false} LastBreakFacts(file: File)
    ensures NEWLINE !in file[LastBreak(file)..]
    ensures LastBreak(file) > 0 ==> file[LastBreak(file) - 1] == NEWLINE
  {
    if file != [] && file[|file| - 1] != NEWLINE {
      var init := file[..|file| - 1];
      LastBreakFacts(init);
      assert file[LastBreak(file)..] == init[LastBreak(file)..] + [file[|file| - 1]];
    }
  }

  /** The unfinished last line is empty, or short enough to be read and not yet a record. */
  predicate TailUnfinished(parse: Parser, file: File) {
    var fragment := file[LastBreak(file)..];
    fragment == [] || (|fragment| <= MAX_RECORD && parse(StripCarriageReturn(fragment)).None?)
  }

  /** Before the last newline every line ends, and ends no later than that newline. */
  lemma FinishedLine(file: File, offset: nat)
    requires offset < LastBreak(file)
    ensures ContentLen(file[offset..]) < |file| - offset
    ensures offset < offset + LineLen(file[offset..]) <= LastBreak(file)
  {
    LastBreakFacts(file);
    NewlineBounds(file[offset..], LastBreak(file) - 1 - offset);
  }

  lemma UnfinishedLine(file: File)
    ensures var rest := file[LastBreak(file)..];
            ContentLen(rest) == LineLen(rest) == |rest|
  {
    LastBreakFacts(file);
    var rest := file[LastBreak(file)..];
    assert rest[..|rest|] == rest;
    ContentLenUnique(rest, |rest|);
  }

  /** Appending to a file does not change its finished lines. */
  lemma SameLine(p: File, s: File, offset: nat)
    requires offset <= |p| && ContentLen(p[offset..]) < |p| - offset
    ensures LineAt(p + s, offset) == LineAt(p, offset)
  {
    var rest, n := p[offset..], ContentLen(p[offset..]);
    assert (p + s)[offset..] == rest + s;
    PieceContent(rest + s, 0, rest);
    assert (rest + s)[..Min(n, MAX_RECORD)] == rest[..Min(n, MAX_RECORD)];
  }

  /** A pass that stops at once leaves everything to the next one. */
  lemma {:induction false} StoppedResumes(parse: Parser, p: File, s: File, offset: nat, context: Context)
    requires offset < |p| && StopsAt(parse, p, |p|, offset)
    ensures var first := Scan(parse, p, |p|, offset, context);
            && first == Nothing(offset, true, context)
            && Scan(parse, p + s, |p + s|, offset, context) == Plus(first, Scan(parse, p + s, |p + s|, first.next, first.context))
  {
    NothingPlus(offset, true, context, Scan(parse, p + s, |p + s|, offset, context));
  }

  lemma {:induction false} UnfinishedStops(parse: Parser, p: File)
    requires TailUnfinished(parse, p) && LastBreak(p) < |p|
    ensures StopsAt(parse, p, |p|, LastBreak(p))
  {
    UnfinishedLine(p);
    var rest := p[LastBreak(p)..];
    assert rest[..|rest|] == rest;
  }

  /** The pass over `p + s` continues the pass over `p`, metadata included. */
  lemma {:induction false} ScanResumes(parse: Parser, p: File, s: File, offset: nat, context: Context)
    requires offset <= LastBreak(p) && TailUnfinished(parse, p)
    ensures var first := Scan(parse, p, |p|, offset, context);
            && first.next <= |p|
            && Scan(parse, p + s, |p + s|, offset, context) == Plus(first, Scan(parse, p + s, |p + s|, first.next, first.context))
    decreases |p| - offset
  {
    if offset == |p| {
      NothingPlus(offset, false, context, Scan(parse, p + s, |p + s|, offset, context));
    } else if offset == LastBreak(p) {
      UnfinishedStops(parse, p);
      StoppedResumes(parse, p, s, offset, context);
    } else if StopsAt(parse, p, |p|, offset) {
      StoppedResumes(parse, p, s, offset, context);
    } else {
      FinishedLine(p, offset);
      SameLine(p, s, offset);
      ScanResumesLine(parse, p, s, offset, context);
    }
  }

  lemma {:induction false} ScanResumesLine(parse: Parser, p: File, s: File, offset: nat, context: Context)
    requires offset < LastBreak(p) && TailUnfinished(parse, p)
    requires ContentLen(p[offset..]) < |p| - offset && LineAt(p + s, offset) == LineAt(p, offset)
    requires offset < offset + LineLen(p[offset..]) <= LastBreak(p)
    requires !StopsAt(parse, p, |p|, offset)
    ensures var first := Scan(parse, p, |p|, offset, context);
            && first.next <= |p|
            && Scan(parse, p + s, |p + s|, offset, context) == Plus(first, Scan(parse, p + s, |p + s|, first.next, first.context))
    decreases |p| - offset, 0
  {
    var entry := FirstEntry(parse, p, offset, context);
    assert entry == FirstEntry(parse, p + s, offset, context) && !StopsAt(parse, p + s, |p + s|, offset);
    ScanResumes(parse, p, s, entry.next, entry.context);
    var more := Scan(parse, p, |p|, entry.next, entry.context);
    PlusAssociative(entry, more, Scan(parse, p + s, |p + s|, more.next, more.context));
  }

  // ----- Without inherited metadata -----

  function WithoutMetadata(records: seq<Record>): (r: seq<Record>)
    ensures |r| == |records|
    ensures forall i :: 0 <= i < |r| ==> r[i] == records[i].(metadata := NO_CONTEXT)
  {
    seq(|records|, i requires 0 <= i < |records| => records[i].(metadata := NO_CONTEXT))
  }

  /** A batch with the metadata of its observations left out. */
  function Bare(b: Batch): Batch {
    b.(records := WithoutMetadata(b.records), context := NO_CONTEXT)
  }

  lemma BarePlus(a: Batch, b: Batch)
    ensures Bare(Plus(a, b)) == Plus(Bare(a), Bare(b))
  {
  }

  lemma BareEntry(offset: nat, next: nat, record: BoundedRecord, parsed: Option<Parsed>, c: Context, d: Context)
    ensures Bare(Entry(offset, next, record, parsed, c)) == Bare(Entry(offset, next, record, parsed, d))
  {
  }

  lemma BareTogether(a: Batch, b: Batch, c: Batch, d: Batch)
    requires Bare(a) == Bare(b) && Bare(c) == Bare(d)
    ensures Bare(Plus(a, c)) == Bare(Plus(b, d))
  {
    BarePlus(a, c);
    BarePlus(b, d);
  }

  /** Two passes from one offset differ in metadata only. */
  ghost predicate SameReadings(parse: Parser, file: File, offset: nat, c: Context, d: Context)
    requires offset <= |file|
  {
    Bare(Scan(parse, file, |file|, offset, c)) == Bare(Scan(parse, file, |file|, offset, d))
  }

  /** Inherited metadata decides nothing but itself. */
  lemma {:induction false} ContextIsMetadata(parse: Parser, file: File, offset: nat, c: Context, d: Context)
    requires offset <= |file|
    ensures SameReadings(parse, file, offset, c, d)
    decreases |file| - offset
  {
    if offset < |file| && !StopsAt(parse, file, |file|, offset) {
      var ec, ed := FirstEntry(parse, file, offset, c), FirstEntry(parse, file, offset, d);
      assert Bare(ec) == Bare(ed) by {
        BareEntry(offset, ec.next, LineAt(file, offset), ParsedAt(parse, file, offset), c, d);
      }
      ContextIsMetadata(parse, file, ec.next, ec.context, ed.context);
      BareTogether(ec, ed, Scan(parse, file, |file|, ec.next, ec.context), Scan(parse, file, |file|, ec.next, ed.context));
    }
  }

  /** Ingest `p`, then resume on `p + s` from the returned cursor. */
  function Resumed(parse: Parser, p: File, s: File): Batch {
    var first := Ingested(parse, p, |p|, 0);
    Plus(first, Ingested(parse, p + s, |p + s|, first.next))
  }

  /** Same offsets, readings, diagnostics, skip counters and final cursor as one pass. */
  ghost predicate ResumesTo(parse: Parser, p: File, s: File) {
    Bare(Resumed(parse, p, s)) == Bare(Ingested(parse, p + s, |p + s|, 0))
  }

  lemma UnfinishedTailResumes(parse: Parser, p: File, s: File)
    requires TailUnfinished(parse, p)
    ensures ResumesTo(parse, p, s)
  {
    var first := Ingested(parse, p, |p|, 0);
    ScanResumes(parse, p, s, 0, NO_CONTEXT);
    ContextIsMetadata(parse, p + s, first.next, first.context, NO_CONTEXT);
    BarePlus(first, Scan(parse, p + s, |p + s|, first.next, first.context));
    BarePlus(first, Scan(parse, p + s, |p + s|, first.next, NO_CONTEXT));
  }

  // ----- Why the tail must be unfinished -----

  /** A tail that is taken as a record, or skipped as oversized, is consumed to the end of the file. */
  lemma {:induction false} TakenTailIsConsumed(parse: Parser, p: File, offset: nat, context: Context)
    requires offset <= LastBreak(p) && !TailUnfinished(parse, p)
    ensures Scan(parse, p, |p|, offset, context).next == |p|
    decreases |p| - offset
  {
    if offset == LastBreak(p) {
      UnfinishedLine(p);
      var rest := p[offset..];
      assert rest[..|rest|] == rest;
    } else {
      FinishedLine(p, offset);
      var entry := FirstEntry(parse, p, offset, context);
      TakenTailIsConsumed(parse, p, entry.next, entry.context);
    }
  }

  lemma {:induction false} BreakAfter(p: File)
    ensures var rest, file := p[LastBreak(p)..], p + [NEWLINE];
            && LineAt(file, LastBreak(p)) ==
               BoundedRecord(rest[..Min(|rest|, MAX_RECORD)], |rest| + 1, |rest| > MAX_RECORD)
            && LineAt(file, |p|) == BoundedRecord([], 1, false)
  {
    LastBreakFacts(p);
    var rest, file := p[LastBreak(p)..], p + [NEWLINE];
    assert file[LastBreak(p)..] == rest + [NEWLINE];
    assert (rest + [NEWLINE])[..|rest|] == rest;
    ContentLenUnique(rest + [NEWLINE], |rest|);
    assert (rest + [NEWLINE])[..Min(|rest|, MAX_RECORD)] == rest[..Min(|rest|, MAX_RECORD)];
    assert file[|p|..] == [NEWLINE];
    ContentLenUnique([NEWLINE], 0);
  }

  lemma {:induction false} TakenTailWithBreak(parse: Parser, p: File, offset: nat, context: Context)
    requires offset <= LastBreak(p) && !TailUnfinished(parse, p)
    ensures Scan(parse, p + [NEWLINE], |p + [NEWLINE]|, offset, context).next == |p| + 1
    decreases |p| - offset
  {
    var file := p + [NEWLINE];
    if offset == LastBreak(p) {
      BreakAfter(p);
      var rest := p[offset..];
      if |rest| <= MAX_RECORD {
        assert rest[..|rest|] == rest;
      }
      var entry := FirstEntry(parse, file, offset, context);
      assert entry.next == |file|;
      assert Scan(parse, file, |file|, |file|, entry.context).next == |file|;
    } else {
      FinishedLine(p, offset);
      SameLine(p, [NEWLINE], offset);
      var entry := FirstEntry(parse, file, offset, context);
      TakenTailWithBreak(parse, p, entry.next, entry.context);
    }
  }

  /** Completing such a tail with a newline gives two passes a different cursor than one pass. */
  lemma TakenTailDoesNotResume(parse: Parser, p: File)
    requires parse([]).None? && !TailUnfinished(parse, p)
    ensures !ResumesTo(parse, p, [NEWLINE])
  {
    TakenTailIsConsumed(parse, p, 0, NO_CONTEXT);
    TakenTailWithBreak(parse, p, 0, NO_CONTEXT);
    BreakAfter(p);
    var file := p + [NEWLINE];
    assert StopsAt(parse, file, |file|, |p|);
    assert Ingested(parse, file, |file|, |p|).next == |p|;
  }

  /**
    Resumability: whatever is appended later, two passes are one pass, exactly
    when the fragment after the last newline is unfinished.
  */
  lemma ResumableExactly(parse: Parser, p: File)
    requires parse([]).None?
    ensures (forall s :: ResumesTo(parse, p, s)) <==> TailUnfinished(parse, p)
  {
    if TailUnfinished(parse, p) {
      forall s ensures ResumesTo(parse, p, s) {
        UnfinishedTailResumes(parse, p, s);
      }
    } else {
      TakenTailDoesNotResume(parse, p);
    }
  }
}
