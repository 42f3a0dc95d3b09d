/** InsertMany and UpsertMany of the Go SDK: records are sent in chunks of 500, in order, until one fails. */
module BulkChunks {
  import opened Common

  const CHUNK_SIZE: nat := 500

  /** The chunks that the loop sends: one call when everything fits, also when there is nothing to send. */
  function Chunks<T>(records: seq<T>): (chunks: seq<seq<T>>)
    ensures chunks != []
    decreases |records|
  {
    if |records| <= CHUNK_SIZE then [records] else [records[..CHUNK_SIZE]] + Chunks(records[CHUNK_SIZE..])
  }

  function Concat<T>(parts: seq<seq<T>>): seq<T> {
    if parts == [] then [] else Concat(parts[..|parts| - 1]) + parts[|parts| - 1]
  }

  lemma {:induction false} ConcatFirst<T>(first: seq<T>, parts: seq<seq<T>>)
    ensures Concat([first] + parts) == first + Concat(parts)
    decreases |parts|
  {
    var all := [first] + parts;
    if parts == [] {
      assert all[..0] == [] && first + [] == first;
      assert Concat(all) == [] + first;
    } else {
      assert all[..|all| - 1] == [first] + parts[..|parts| - 1];
      ConcatFirst(first, parts[..|parts| - 1]);
    }
  }

  /** Every record is in exactly one chunk, in order; chunks are full except the last. */
  lemma {:induction false} ChunksPartition<T>(records: seq<T>)
    ensures Concat(Chunks(records)) == records
    ensures forall i :: 0 <= i < |Chunks(records)| ==> |Chunks(records)[i]| <= 500
    ensures forall i :: 0 <= i < |Chunks(records)| - 1 ==> |Chunks(records)[i]| == 500
    decreases |records|
  {
    if |records| <= CHUNK_SIZE {
      assert [records][..0] == [];
      assert Concat([records]) == [] + records;
    } else {
      ChunksPartition(records[CHUNK_SIZE..]);
      ConcatFirst(records[..CHUNK_SIZE], Chunks(records[CHUNK_SIZE..]));
      assert records == records[..CHUNK_SIZE] + records[CHUNK_SIZE..];
    }
  }

  /** Chunk after chunk is sent, in order, until one fails. The answer to a chunk may depend on its turn, so equal
      chunks need not be answered alike; success returns all the rows answered, in order. */
  ghost predicate IsTransfer<T>(records: seq<T>, server: (nat, seq<T>) -> Result<seq<T>>, sent: nat, r: Result<seq<T>>) {
    var chunks := Chunks(records);
    1 <= sent <= |chunks| &&
    (forall i :: 0 <= i < sent - 1 ==> server(i, chunks[i]).Ok?) &&
    if server(sent - 1, chunks[sent - 1]).Err? then r == Err(server(sent - 1, chunks[sent - 1]).message)
    else sent == |chunks| && r == Ok(Concat(seq(sent, i requires 0 <= i < sent => AnswerOf(server, i, chunks[i]))))
  }

  function AnswerOf<T>(server: (nat, seq<T>) -> Result<seq<T>>, turn: nat, chunk: seq<T>): seq<T> {
    if server(turn, chunk).Ok? then server(turn, chunk).value else []
  }

  /** Where the loop's chunk that starts at `start` ends. */
  function EndOf<T>(records: seq<T>, start: nat): (end: nat)
  {
    if start + CHUNK_SIZE > |records| then |records| else start + CHUNK_SIZE
  }

  lemma {:induction false} ChunkAt<T>(records: seq<T>, k: nat)
    requires k * CHUNK_SIZE < |records|
    ensures k < |Chunks(records)|
    ensures Chunks(records)[k] == records[k * CHUNK_SIZE..EndOf(records, k * CHUNK_SIZE)]
    ensures (k + 1) * CHUNK_SIZE >= |records| <==> k == |Chunks(records)| - 1
    decreases |records|
  {
    if |records| <= CHUNK_SIZE {
      assert records[0..|records|] == records;
    } else if k > 0 {
      var rest := records[CHUNK_SIZE..];
      ChunkAt(rest, k - 1);
      var start := (k - 1) * CHUNK_SIZE;
      assert rest[start..EndOf(rest, start)] == records[k * CHUNK_SIZE..EndOf(records, k * CHUNK_SIZE)];
    }
  }

  method SendMany<T>(records: seq<T>, server: (nat, seq<T>) -> Result<seq<T>>) returns (r: Result<seq<T>>, sent: nat)
    ensures IsTransfer(records, server, sent, r)
  {
    if |records| <= CHUNK_SIZE {
      r, sent := server(0, records), 1;
      if r.Ok? { SingleAnswer(r.value); }
      return;
    }
    var result: seq<T> := [];
    var start := 0;
    sent := 0;
    ghost var chunks := Chunks(records);
    ghost var answers: seq<seq<T>> := [];
    while start < |records|
      invariant start == sent * CHUNK_SIZE || (start >= |records| && sent == |chunks|)
      invariant sent <= |chunks| && (start >= |records| ==> sent == |chunks|)
      invariant |answers| == sent && result == Concat(answers)
      invariant forall i :: 0 <= i < sent ==> server(i, chunks[i]) == Ok(answers[i])
    {
      var end := start + CHUNK_SIZE;
      if end > |records| {
        end := |records|;
      }
      ChunkAt(records, sent);
      var items := server(sent, records[start..end]);
      sent := sent + 1;
      if items.Err? {
        return Err(items.message), sent;
      }
      assert (answers + [items.value])[..|answers|] == answers;
      answers := answers + [items.value];
      result := result + items.value;
      start := start + CHUNK_SIZE;
    }
    assert answers == seq(sent, i requires 0 <= i < sent => AnswerOf(server, i, chunks[i]));
    return Ok(result), sent;
  }

  lemma SingleAnswer<T>(rows: seq<T>)
    ensures Concat([rows]) == rows
  {
    assert [rows][..0] == [];
    assert Concat([rows]) == [] + rows;
  }
}
