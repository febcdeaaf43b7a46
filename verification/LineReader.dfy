/**
  The bounded line reader of `src/ingest.rs`: one record per line, at most
  1 MiB of it kept, whatever pieces the buffered reader hands out.
*/
module LineReader {

  type Byte = b: int | 0 <= b < 256

  const NEWLINE: Byte := 10
  const CARRIAGE_RETURN: Byte := 13
  const MAX_RECORD: nat := 1024 * 1024

  /** Bytes before the first newline, or all of them. */
  function ContentLen(rest: seq<Byte>): (n: nat)
    ensures n <= |rest|
  {
    if rest == [] || rest[0] == NEWLINE then 0 else 1 + ContentLen(rest[1..])
  }

  lemma {:induction false} ContentLenStops(rest: seq<Byte>)
    ensures NEWLINE !in rest[..ContentLen(rest)]
    ensures ContentLen(rest) < |rest| ==> rest[ContentLen(rest)] == NEWLINE
  {
    if rest != [] && rest[0] != NEWLINE {
      ContentLenStops(rest[1..]);
      assert rest[..ContentLen(rest)] == [rest[0]] + rest[1..][..ContentLen(rest[1..])];
    }
  }

  /** The line with its newline, when it has one. */
  function LineLen(rest: seq<Byte>): (n: nat)
    ensures n <= |rest|
    ensures rest != [] ==> n > 0
  {
    if ContentLen(rest) < |rest| then ContentLen(rest) + 1 else |rest|
  }

  function Min(a: nat, b: nat): nat { if a < b then a else b }

  datatype BoundedRecord = BoundedRecord(bytes: seq<Byte>, bytesRead: nat, oversized: bool)

  /** What one read returns, independent of how the input is buffered. */
  function RecordAt(rest: seq<Byte>): BoundedRecord {
    BoundedRecord(rest[..Min(ContentLen(rest), MAX_RECORD)], LineLen(rest), ContentLen(rest) > MAX_RECORD)
  }

  /** The first newline determines the content length. */
  lemma {:induction false} ContentLenUnique(rest: seq<Byte>, n: nat)
    requires n <= |rest| && NEWLINE !in rest[..n] && (n < |rest| ==> rest[n] == NEWLINE)
    ensures ContentLen(rest) == n
  {
    if n > 0 {
      assert rest[0] == rest[..n][0];
      assert rest[1..][..n - 1] == rest[..n][1..];
      ContentLenUnique(rest[1..], n - 1);
    }
  }

  /** Content never reaches past a newline. */
  lemma {:induction false} NewlineBounds(rest: seq<Byte>, k: nat)
    requires k < |rest| && rest[k] == NEWLINE
    ensures ContentLen(rest) <= k
  {
    if k > 0 && rest[0] != NEWLINE {
      NewlineBounds(rest[1..], k - 1);
    }
  }

  /** A buffered reader over fixed bytes: it may expose any non-empty piece of what is left. */
  class BufferedReader {
    const data: seq<Byte>
    var pos: nat

    ghost predicate Valid()
      reads this
    {
      pos <= |data|
    }

    function Rest(): seq<Byte>
      requires Valid()
      reads this
    {
      data[pos..]
    }

    constructor (data: seq<Byte>, start: nat)
      requires start <= |data|
      ensures Valid() && this.data == data && pos == start
    {
      this.data := data;
      pos := start;
    }

    method FillBuf() returns (available: seq<Byte>)
      requires Valid()
      ensures available <= Rest()
      ensures Rest() != [] ==> available != []
    {
      if pos == |data| {
        return [];
      }
      var size: nat :| 1 <= size <= |data| - pos;
      available := data[pos..pos + size];
    }

    method Consume(n: nat)
      requires Valid() && n <= |Rest()|
      modifies this`pos
      ensures Valid() && pos == old(pos) + n
    {
      pos := pos + n;
    }
  }

  method Position(bytes: seq<Byte>) returns (index: nat, found: bool)
    ensures index == ContentLen(bytes)
    ensures found <==> index < |bytes|
  {
    index := 0;
    while index < |bytes| && bytes[index] != NEWLINE
      invariant index <= |bytes|
      invariant NEWLINE !in bytes[..index]
    {
      index := index + 1;
    }
    found := index < |bytes|;
    ContentLenUnique(bytes, index);
  }

  /** A piece read where the line is still open locates the end of the line, or shows that it goes on. */
  lemma {:induction false} PieceContent(input: seq<Byte>, read: nat, piece: seq<Byte>)
    requires read <= ContentLen(input) && piece <= input[read..]
    ensures ContentLen(piece) < |piece| ==> ContentLen(input) == read + ContentLen(piece)
    ensures ContentLen(piece) == |piece| ==> ContentLen(input) >= read + |piece|
    decreases |input|
  {
    if read > 0 {
      assert input[1..][read - 1..] == input[read..];
      PieceContent(input[1..], read - 1, piece);
    } else if piece != [] {
      assert piece[0] == input[0];
      if piece[0] != NEWLINE {
        TailPrefix(piece, input);
        PieceContent(input[1..], 0, piece[1..]);
      }
    }
  }

  lemma TailPrefix(a: seq<Byte>, b: seq<Byte>)
    requires a != [] && a <= b
    ensures a[1..] <= b[1..][0..]
  {
  }

  /** The part of a piece that still fits under the limit. */
  method Retain(bytes: seq<Byte>, oversized: bool, content: seq<Byte>, ghost input: seq<Byte>, ghost read: nat)
    returns (kept: seq<Byte>, over: bool)
    requires read <= |input| && content <= input[read..]
    requires bytes == input[..Min(read, MAX_RECORD)] && (oversized <==> read > MAX_RECORD)
    ensures kept == input[..Min(read + |content|, MAX_RECORD)]
    ensures over <==> read + |content| > MAX_RECORD
  {
    kept, over := bytes, oversized;
    if !oversized {
      var remaining := MAX_RECORD - |bytes|;
      var retained := Min(|content|, remaining);
      kept := bytes + content[..retained];
      assert content[..retained] == input[read..read + retained];
      if |content| > remaining {
        over := true;
      }
    }
  }

  /** What the loop has read so far: the line goes on, and its kept part is up to date. */
  ghost predicate Partial(input: seq<Byte>, bytes: seq<Byte>, read: nat, oversized: bool) {
    && read <= ContentLen(input)
    && bytes == input[..Min(read, MAX_RECORD)]
    && (oversized <==> read > MAX_RECORD)
  }

  /**
    Chunk independence: however the input is buffered, one read consumes exactly
    through the first newline or the end of input, keeps the first `MAX_RECORD`
    bytes of the content and reports oversized exactly when there were more.
  */
  method ReadBoundedRecord(reader: BufferedReader) returns (record: BoundedRecord)
    requires reader.Valid()
    modifies reader`pos
    ensures reader.Valid()
    ensures record == RecordAt(old(reader.Rest()))
    ensures reader.pos == old(reader.pos) + record.bytesRead
  {
    var bytes: seq<Byte>, bytesRead, oversized := [], 0, false;
    ghost var input := reader.Rest();
    while true
      invariant reader.Valid() && reader.pos == old(reader.pos) + bytesRead
      invariant Partial(input, bytes, bytesRead, oversized)
      decreases |input| - bytesRead
    {
      assert reader.Rest() == input[bytesRead..];
      var available := reader.FillBuf();
      if available == [] {
        break;
      }
      PieceContent(input, bytesRead, available);
      var contentLen, newline := Position(available);
      var consumed := if newline then contentLen + 1 else |available|;
      bytes, oversized := Retain(bytes, oversized, available[..contentLen], input, bytesRead);
      bytesRead := bytesRead + consumed;
      reader.Consume(consumed);
      if newline {
        return BoundedRecord(bytes, bytesRead, oversized);
      }
    }
    record := BoundedRecord(bytes, bytesRead, oversized);
  }
}
