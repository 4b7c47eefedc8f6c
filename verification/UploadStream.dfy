/**
 The streamed model upload: a writer that cuts an archive into fixed chunks, a bounded
 channel, and a consumer that uploads parts and commits.
 */
module UploadStream {
  import opened Wrappers

  const MODEL_CHUNK_BYTES: nat := 16 * 1024 * 1024

  type Data = seq<bv8>

  // ---- The one way to cut a byte string ----------------------------------------------------

  function FullChunks(data: Data): seq<Data> {
    if |data| < MODEL_CHUNK_BYTES then []
    else [data[..MODEL_CHUNK_BYTES]] + FullChunks(data[MODEL_CHUNK_BYTES..])
  }

  function Remainder(data: Data): (rest: Data)
    ensures |rest| < MODEL_CHUNK_BYTES
  {
    if |data| < MODEL_CHUNK_BYTES then data else Remainder(data[MODEL_CHUNK_BYTES..])
  }

  function Chunks(data: Data): seq<Data> {
    FullChunks(data) + if Remainder(data) == [] then [] else [Remainder(data)]
  }

  function Concat(chunks: seq<Data>): Data {
    if chunks == [] then [] else Concat(chunks[..|chunks| - 1]) + chunks[|chunks| - 1]
  }

  lemma {:induction false} ConcatCons(first: Data, chunks: seq<Data>)
    ensures Concat([first] + chunks) == first + Concat(chunks)
  {
    if chunks == [] {
      assert ([first] + chunks)[..0] == [];
    } else {
      var n := |chunks| - 1;
      ConcatCons(first, chunks[..n]);
      assert ([first] + chunks)[..n + 1] == [first] + chunks[..n];
    }
  }

  /** The chunks, in order, are the data. */
  lemma {:induction false} ChunksAreTheData(data: Data)
    ensures Concat(Chunks(data)) == data
  {
    if |data| < MODEL_CHUNK_BYTES {
      if data != [] {
        assert Chunks(data) == [data] && [data][..0] == [];
      }
    } else {
      var first, rest := data[..MODEL_CHUNK_BYTES], data[MODEL_CHUNK_BYTES..];
      ChunksAreTheData(rest);
      assert Chunks(data) == [first] + Chunks(rest);
      ConcatCons(first, Chunks(rest));
    }
  }

  /** No chunk is empty, and all but the last are full. */
  lemma {:induction false} ChunkSizes(data: Data, i: nat)
    requires i < |Chunks(data)|
    ensures 0 < |Chunks(data)[i]| <= MODEL_CHUNK_BYTES
    ensures i < |Chunks(data)| - 1 ==> |Chunks(data)[i]| == MODEL_CHUNK_BYTES
  {
    if |data| >= MODEL_CHUNK_BYTES {
      var rest := data[MODEL_CHUNK_BYTES..];
      assert Chunks(data) == [data[..MODEL_CHUNK_BYTES]] + Chunks(rest);
      if i > 0 {
        ChunkSizes(rest, i - 1);
      }
    }
  }

  /** Bytes that fit the open chunk extend it, and close it when they fill it. */
  lemma {:induction false} Extend(data: Data, more: Data)
    requires |Remainder(data)| + |more| <= MODEL_CHUNK_BYTES
    ensures if |Remainder(data)| + |more| < MODEL_CHUNK_BYTES
      then FullChunks(data + more) == FullChunks(data) && Remainder(data + more) == Remainder(data) + more
      else FullChunks(data + more) == FullChunks(data) + [Remainder(data) + more] && Remainder(data + more) == []
  {
    if |data| < MODEL_CHUNK_BYTES {
      if |data + more| == MODEL_CHUNK_BYTES {
        assert (data + more)[..MODEL_CHUNK_BYTES] == data + more && (data + more)[MODEL_CHUNK_BYTES..] == [];
      }
    } else {
      var rest := data[MODEL_CHUNK_BYTES..];
      Extend(rest, more);
      assert (data + more)[..MODEL_CHUNK_BYTES] == data[..MODEL_CHUNK_BYTES];
      assert (data + more)[MODEL_CHUNK_BYTES..] == rest + more;
    }
  }

  // ---- The writer --------------------------------------------------------------------------

  /** `sent` is what the channel accepted; the receiver goes away after `accepts` chunks. */
  class ChunkSenderWriter {
    var buffer: Data
    var sent: seq<Data>
    const accepts: nat
    ghost var written: Data

    ghost predicate Valid()
      reads this
    {
      sent == FullChunks(written) && buffer == Remainder(written) && |sent| <= accepts
    }

    constructor (accepts: nat)
      ensures Valid() && written == [] && this.accepts == accepts
    {
      this.accepts := accepts;
      buffer, sent, written := [], [], [];
    }

    method SendChunk(chunk: Data) returns (ok: bool)
      modifies `sent
      ensures ok <==> |old(sent)| < accepts
      ensures sent == if ok then old(sent) + [chunk] else old(sent)
    {
      ok := |sent| < accepts;
      if ok {
        sent := sent + [chunk];
      }
    }

    /** One turn of the write loop: fill the buffer and send it if that makes it full. */
    method Fill(piece: Data) returns (ok: bool)
      requires Valid() && |buffer| + |piece| <= MODEL_CHUNK_BYTES
      modifies this
      ensures written == old(written) + piece
      ensures ok <==> |FullChunks(written)| <= accepts
      ensures if ok then Valid() && |buffer| < MODEL_CHUNK_BYTES else |sent| == accepts && sent == old(sent)
    {
      Extend(written, piece);
      written := written + piece;
      buffer := buffer + piece;
      ok := true;
      if |buffer| == MODEL_CHUNK_BYTES {
        var chunk := buffer;
        buffer := [];
        ok := SendChunk(chunk);
      }
    }

    /** Buffers the bytes and sends every chunk they complete. It fails exactly when they
        complete a chunk after the receiver is gone, having sent the chunks before it and no
        others. */
    method Write(bytes: Data) returns (r: Result<nat, ()>)
      requires Valid()
      modifies this
      ensures r.Ok? ==> r.value == |bytes| && written == old(written) + bytes && Valid()
      ensures r.Err? ==> |sent| == accepts && sent <= FullChunks(old(written) + bytes)
      ensures r.Ok? <==> |FullChunks(old(written) + bytes)| <= accepts
    {
      var rest := bytes;
      while rest != []
        invariant Valid() && |buffer| < MODEL_CHUNK_BYTES
        invariant written + rest == old(written) + bytes
        decreases |rest|
      {
        var available := MODEL_CHUNK_BYTES - |buffer|;
        var take := if available <= |rest| then available else |rest|;
        FullChunksPrefix(written, rest);
        assert written + rest == written + rest[..take] + rest[take..];
        var ok := Fill(rest[..take]);
        FullChunksPrefix(written, rest[take..]);
        if !ok {
          return Err(());
        }
        rest := rest[take..];
      }
      return Ok(|bytes|);
    }

    /** Sends what is left: on success the channel has seen the whole of what was written. */
    method Finish() returns (ok: bool)
      requires Valid()
      modifies this
      ensures ok ==> sent == Chunks(written) && buffer == [] && written == old(written)
      ensures !ok ==> |sent| == accepts && sent == old(sent)
      ensures ok <==> |Chunks(old(written))| <= accepts
    {
      ok := true;
      if buffer != [] {
        var chunk := buffer;
        buffer := [];
        ok := SendChunk(chunk);
      }
    }
  }

  lemma {:induction false} FullChunksPrefix(data: Data, more: Data)
    ensures FullChunks(data) <= FullChunks(data + more)
  {
    if |data| >= MODEL_CHUNK_BYTES {
      FullChunksPrefix(data[MODEL_CHUNK_BYTES..], more);
      assert (data + more)[..MODEL_CHUNK_BYTES] == data[..MODEL_CHUNK_BYTES];
      assert (data + more)[MODEL_CHUNK_BYTES..] == data[MODEL_CHUNK_BYTES..] + more;
    }
  }

  // ---- Producer, channel and consumer --------------------------------------------------------

  const CHANNEL_CAPACITY: nat := 2

  datatype Message = Chunk(data: Data) | Failure

  datatype Producer = Writing | Failing | Exited(complete: bool) | Panicked

  /** `Sending`: a chunk has been taken from the channel and its upload is under way. */
  datatype Consumer = Receiving | Sending(data: Data) | Aborted | Committed
  {
    predicate Alive() {
      Receiving? || Sending?
    }

    function InFlight(): seq<Data> {
      if Sending? then [data] else []
    }
  }

  /** `todo`: the archive writer's remaining write calls; `pending`: the rest of the current
      one; `fed`: the bytes that have gone into the buffer; `parts`: the parts the server
      has accepted, part 1 first. */
  datatype State = State(
    todo: seq<Data>, pending: Data, fed: Data, buffer: Data, producer: Producer,
    channel: seq<Message>, parts: seq<Data>, consumer: Consumer)

  datatype Action =
    | NextWrite | FillBuffer | SendFull | SendFails | ArchiveFails | SendFailure | DropFailure
    | FinishChunk | FinishEmpty | Panic
    | Receive | Upload | UploadFails | ReceiveFailure | Commit | NoticePanic

  predicate Room(s: State) {
    s.consumer.Alive() && |s.channel| < CHANNEL_CAPACITY
  }

  predicate Written(s: State) {
    s.producer.Writing? && s.todo == [] && s.pending == [] && |s.buffer| < MODEL_CHUNK_BYTES
  }

  predicate Enabled(s: State, a: Action) {
    match a
    case NextWrite => s.producer.Writing? && s.pending == [] && s.todo != [] && |s.buffer| < MODEL_CHUNK_BYTES
    case FillBuffer => s.producer.Writing? && s.pending != [] && |s.buffer| < MODEL_CHUNK_BYTES
    case SendFull => s.producer.Writing? && |s.buffer| == MODEL_CHUNK_BYTES && Room(s)
    case SendFails =>
      s.producer.Writing? && !s.consumer.Alive() && (|s.buffer| == MODEL_CHUNK_BYTES || (Written(s) && s.buffer != []))
    case ArchiveFails => s.producer.Writing?
    case SendFailure => s.producer.Failing? && Room(s)
    case DropFailure => s.producer.Failing? && !s.consumer.Alive()
    case FinishChunk => Written(s) && s.buffer != [] && Room(s)
    case FinishEmpty => Written(s) && s.buffer == []
    case Panic => s.producer.Writing? || s.producer.Failing?
    case Receive => s.consumer.Receiving? && s.channel != [] && s.channel[0].Chunk?
    case Upload => s.consumer.Sending?
    case UploadFails => s.consumer.Sending?
    case ReceiveFailure => s.consumer.Receiving? && s.channel != [] && s.channel[0].Failure?
    case Commit => s.consumer.Receiving? && s.channel == [] && s.producer.Exited?
    case NoticePanic => s.consumer.Receiving? && s.channel == [] && s.producer.Panicked?
  }

  function Step(s: State, a: Action): State
    requires Enabled(s, a)
  {
    match a
    case NextWrite => s.(pending := s.todo[0], todo := s.todo[1..])
    case FillBuffer =>
      var room := MODEL_CHUNK_BYTES - |s.buffer|;
      var take := if room <= |s.pending| then room else |s.pending|;
      s.(buffer := s.buffer + s.pending[..take], fed := s.fed + s.pending[..take], pending := s.pending[take..])
    case SendFull => s.(channel := s.channel + [Chunk(s.buffer)], buffer := [])
    case SendFails => s.(buffer := [], producer := Failing)
    case ArchiveFails => s.(producer := Failing)
    case SendFailure => s.(channel := s.channel + [Failure], producer := Exited(false))
    case DropFailure => s.(producer := Exited(false))
    case FinishChunk => s.(channel := s.channel + [Chunk(s.buffer)], buffer := [], producer := Exited(true))
    case FinishEmpty => s.(producer := Exited(true))
    case Panic => s.(producer := Panicked)
    case Receive => s.(consumer := Sending(s.channel[0].data), channel := s.channel[1..])
    case Upload => s.(parts := s.parts + [s.consumer.data], consumer := Receiving)
    case UploadFails => s.(consumer := Aborted)
    case ReceiveFailure => s.(consumer := Aborted)
    case Commit => s.(consumer := Committed)
    case NoticePanic => s.(consumer := Aborted)
  }

  function Start(writes: seq<Data>): State {
    State(writes, [], [], [], Writing, [], [], Receiving)
  }

  function Queued(channel: seq<Message>): seq<Data> {
    if channel == [] then []
    else (if channel[0].Chunk? then [channel[0].data] else []) + Queued(channel[1..])
  }

  /** The chunks that have left the writer: uploaded, being uploaded or still in the channel. */
  function Departed(s: State): seq<Data> {
    s.parts + s.consumer.InFlight() + Queued(s.channel)
  }

  function Flatten(writes: seq<Data>): Data {
    if writes == [] then [] else writes[0] + Flatten(writes[1..])
  }

  predicate NoFailure(channel: seq<Message>) {
    forall i :: 0 <= i < |channel| ==> channel[i].Chunk?
  }

  /** While the producer works, the chunks that left it and its buffer are the canonical cut
      of what it was fed; once it exits complete, they are all of the archive; once it
      exits incomplete, the failure message is still to be received. */
  ghost predicate Inv(archive: Data, s: State) {
    match s.consumer
    case Aborted => true
    case Committed => s.parts == Chunks(archive)
    case _ =>
      match s.producer
      case Writing =>
        && NoFailure(s.channel) && |s.buffer| <= MODEL_CHUNK_BYTES
        && s.fed + (s.pending + Flatten(s.todo)) == archive
        && (if |s.buffer| < MODEL_CHUNK_BYTES
            then Departed(s) == FullChunks(s.fed) && s.buffer == Remainder(s.fed)
            else Departed(s) + [s.buffer] == FullChunks(s.fed) && Remainder(s.fed) == [])
      case Failing => true
      case Exited(true) => NoFailure(s.channel) && Departed(s) == Chunks(archive)
      case Exited(false) => s.channel != [] && s.channel[|s.channel| - 1].Failure?
      case Panicked => true
  }

  lemma {:induction false} QueuedAppend(channel: seq<Message>, data: Data)
    ensures Queued(channel + [Chunk(data)]) == Queued(channel) + [data]
  {
    if channel == [] {
      assert ([] + [Chunk(data)])[1..] == [];
    } else {
      QueuedAppend(channel[1..], data);
      assert (channel + [Chunk(data)])[1..] == channel[1..] + [Chunk(data)];
    }
  }

  lemma FillKeepsInv(archive: Data, s: State)
    requires Inv(archive, s) && Enabled(s, FillBuffer) && s.consumer.Alive()
    ensures Inv(archive, Step(s, FillBuffer))
  {
    var s' := Step(s, FillBuffer);
    var piece := s'.fed[|s.fed|..];
    Extend(s.fed, piece);
    assert s.pending == piece + s'.pending;
    assert s.fed + (piece + s'.pending + Flatten(s.todo)) == s'.fed + (s'.pending + Flatten(s.todo));
  }

  lemma ProducerKeepsInv(archive: Data, s: State, a: Action)
    requires Inv(archive, s) && Enabled(s, a)
    requires a.NextWrite? || a.FillBuffer? || a.SendFull? || a.FinishChunk? || a.FinishEmpty?
    ensures Inv(archive, Step(s, a))
  {
    if s.consumer.Alive() {
      match a
      case NextWrite =>
      case FillBuffer => FillKeepsInv(archive, s);
      case SendFull => QueuedAppend(s.channel, s.buffer);
      case FinishChunk =>
        QueuedAppend(s.channel, s.buffer);
        assert s.fed == archive;
      case FinishEmpty => assert s.fed == archive;
    }
  }

  lemma StepKeepsInv(archive: Data, s: State, a: Action)
    requires Inv(archive, s) && Enabled(s, a)
    ensures Inv(archive, Step(s, a))
  {
    match a
    case Receive =>
      assert Departed(Step(s, Receive)) == s.parts + ([s.channel[0].data] + Queued(s.channel[1..])) == Departed(s);
    case Upload => assert Departed(Step(s, Upload)) == Departed(s);
    case SendFails =>
    case ArchiveFails =>
    case SendFailure =>
    case DropFailure =>
    case Panic =>
    case UploadFails =>
    case ReceiveFailure =>
    case Commit =>
    case NoticePanic =>
    case _ => ProducerKeepsInv(archive, s, a);
  }

  function Run(s: State, actions: seq<Action>): Option<State> {
    if actions == [] then Some(s)
    else
      match Run(s, actions[..|actions| - 1])
      case None => None
      case Some(before) =>
        var a := actions[|actions| - 1];
        if Enabled(before, a) then Some(Step(before, a)) else None
  }

  lemma {:induction false} RunKeepsInv(archive: Data, s: State, actions: seq<Action>)
    requires Inv(archive, s) && Run(s, actions).Some?
    ensures Inv(archive, Run(s, actions).value)
  {
    if actions != [] {
      var n := |actions| - 1;
      RunKeepsInv(archive, s, actions[..n]);
      StepKeepsInv(archive, Run(s, actions[..n]).value, actions[n]);
    }
  }

  /** In every run, a commit means that parts 1 to n, in order, are the whole archive, cut
      the one canonical way, whatever sizes the archive writer used. */
  lemma CommitMeansWholeArchive(writes: seq<Data>, actions: seq<Action>)
    requires Run(Start(writes), actions).Some? && Run(Start(writes), actions).value.consumer.Committed?
    ensures var parts := Run(Start(writes), actions).value.parts;
      parts == Chunks(Flatten(writes)) && Concat(parts) == Flatten(writes)
  {
    RunKeepsInv(Flatten(writes), Start(writes), actions);
    ChunksAreTheData(Flatten(writes));
  }

  /** The producer of the protocol is the writer: between write calls, what has left it and what
      it holds are what a `ChunkSenderWriter` has sent and buffered after the same bytes. */
  lemma ProducerIsWriter(writes: seq<Data>, actions: seq<Action>, writer: ChunkSenderWriter)
    requires Run(Start(writes), actions).Some? && writer.Valid()
    requires var s := Run(Start(writes), actions).value;
      && s.producer.Writing? && s.consumer.Alive() && |s.buffer| < MODEL_CHUNK_BYTES && writer.written == s.fed
    ensures var s := Run(Start(writes), actions).value; Departed(s) == writer.sent && s.buffer == writer.buffer
  {
    RunKeepsInv(Flatten(writes), Start(writes), actions);
  }

  // ---- Progress ------------------------------------------------------------------------------

  /** Nothing has failed so far and the upload is not over. */
  predicate Healthy(s: State) {
    && s.consumer.Alive() && NoFailure(s.channel) && |s.buffer| <= MODEL_CHUNK_BYTES
    && (s.producer.Writing? || s.producer == Exited(true))
  }

  /** A step that goes on with what is under way: upload and receive while there is something to,
      then produce; once the consumer is gone, produce until a send shows it. */
  function NextAction(s: State): Action {
    if s.consumer.Sending? then Upload
    else if s.consumer.Receiving? && s.channel != [] then
      if s.channel[0].Chunk? then Receive else ReceiveFailure
    else if s.producer.Exited? then Commit
    else if s.producer.Panicked? then NoticePanic
    else if s.producer.Failing? then if s.consumer.Alive() then SendFailure else DropFailure
    else if |s.buffer| == MODEL_CHUNK_BYTES then if s.consumer.Alive() then SendFull else SendFails
    else if s.pending != [] then FillBuffer
    else if s.todo != [] then NextWrite
    else if s.buffer != [] then if s.consumer.Alive() then FinishChunk else SendFails
    else FinishEmpty
  }

  function Flag(b: bool): nat {
    if b then 1 else 0
  }

  /** Both tasks are over. */
  predicate Over(s: State) {
    !s.consumer.Alive() && (s.producer.Exited? || s.producer.Panicked?)
  }

  /** Such a step is always possible, and breaks nothing that has not failed yet. */
  lemma NextActionEnabled(s: State)
    requires !Over(s) && |s.buffer| <= MODEL_CHUNK_BYTES
    ensures Enabled(s, NextAction(s)) && |Step(s, NextAction(s)).buffer| <= MODEL_CHUNK_BYTES
    ensures Healthy(s) ==>
      Healthy(Step(s, NextAction(s))) || (Over(Step(s, NextAction(s))) && Step(s, NextAction(s)).consumer.Committed?)
  {
  }

  lemma RunExtends(s: State, all: seq<Action>, front: seq<Action>, last: Action)
    requires all == front + [last]
    ensures Run(s, all) ==
      if Run(s, front).Some? && Enabled(Run(s, front).value, last) then Some(Step(Run(s, front).value, last)) else None
  {
    assert all[..|all| - 1] == front;
  }

  lemma {:induction false} RunCons(s: State, a: Action, rest: seq<Action>)
    requires Enabled(s, a)
    ensures Run(s, [a] + rest) == Run(Step(s, a), rest)
  {
    if rest == [] {
      RunExtends(s, [a] + rest, [], a);
    } else {
      var front, last := rest[..|rest| - 1], rest[|rest| - 1];
      RunCons(s, a, front);
      assert rest == front + [last];
      RunExtends(s, [a] + rest, [a] + front, last);
      RunExtends(Step(s, a), rest, front, last);
    }
  }

  /** From every state some run ends both tasks, and commits if nothing had failed yet: neither the
      bounded channel nor any pattern of write sizes or failures can block the upload. */
  lemma {:induction false} SomeRunEnds(s: State) returns (actions: seq<Action>)
    requires |s.buffer| <= MODEL_CHUNK_BYTES
    ensures Run(s, actions).Some? && Over(Run(s, actions).value)
    ensures Healthy(s) ==> Run(s, actions).value.consumer.Committed?
    decreases s.todo, s.pending, Flag(s.producer.Writing?), Flag(s.producer.Failing?),
      Flag(|s.buffer| == MODEL_CHUNK_BYTES), |s.channel|, Flag(s.consumer.Sending?), Flag(s.consumer.Alive())
  {
    if Over(s) {
      actions := [];
    } else {
      NextActionEnabled(s);
      var a := NextAction(s);
      var rest := [];
      if !Over(Step(s, a)) {
        rest := SomeRunEnds(Step(s, a));
      }
      RunCons(s, a, rest);
      actions := [a] + rest;
    }
  }

  /** Every archive can be uploaded, whatever its write calls. */
  lemma EveryArchiveCanCommit(writes: seq<Data>) returns (actions: seq<Action>)
    ensures Run(Start(writes), actions).Some? && Run(Start(writes), actions).value.consumer.Committed?
    ensures Concat(Run(Start(writes), actions).value.parts) == Flatten(writes)
  {
    actions := SomeRunEnds(Start(writes));
    CommitMeansWholeArchive(writes, actions);
  }

  /** What producer and consumer do of themselves, failures of the archive and the server apart. */
  predicate OfProducer(a: Action) {
    a in {NextWrite, FillBuffer, SendFull, SendFails, SendFailure, DropFailure, FinishChunk, FinishEmpty}
  }

  predicate OfConsumer(a: Action) {
    a in {Receive, Upload, ReceiveFailure, Commit, NoticePanic}
  }

  /** Each task is sequential: no state leaves it a choice. */
  lemma TasksAreSequential(s: State, a: Action, b: Action)
    requires Enabled(s, a) && Enabled(s, b) && ((OfProducer(a) && OfProducer(b)) || (OfConsumer(a) && OfConsumer(b)))
    ensures a == b
  {
  }

  /** In every run the channel holds at most two messages, and nothing enters it once the consumer
      is gone. */
  lemma {:induction false} ChannelIsBounded(writes: seq<Data>, actions: seq<Action>)
    requires Run(Start(writes), actions).Some?
    ensures |Run(Start(writes), actions).value.channel| <= 2
    ensures actions != [] && Run(Start(writes), actions[..|actions| - 1]).value.consumer in {Aborted, Committed} ==>
      Run(Start(writes), actions).value.channel == Run(Start(writes), actions[..|actions| - 1]).value.channel
  {
    if actions != [] {
      ChannelIsBounded(writes, actions[..|actions| - 1]);
    }
  }

  // ---- Failure -------------------------------------------------------------------------------

  /** The producer has failed and the consumer, if still there, is bound to find out. */
  predicate Doomed(s: State) {
    && !s.consumer.Committed?
    && match s.producer
       case Writing => false
       case Failing => true
       case Exited(complete) =>
         !complete && (s.consumer.Alive() ==> s.channel != [] && s.channel[|s.channel| - 1].Failure?)
       case Panicked => true
  }

  /** A producer at work may fail or panic at any moment; no run commits an upload after that. */
  lemma {:induction false} FailureNeverCommits(s: State, a: Action, actions: seq<Action>)
    requires s.producer.Writing? && !s.consumer.Committed? && a in {ArchiveFails, Panic}
    ensures Enabled(s, a)
    ensures Run(Step(s, a), actions).Some? ==> Doomed(Run(Step(s, a), actions).value)
  {
    if actions != [] {
      FailureNeverCommits(s, a, actions[..|actions| - 1]);
    }
  }

  /** Nothing of the archive is lost while it is written, and a producer that exits complete has
      fed all of it, whatever became of the consumer. */
  ghost predicate Accounted(archive: Data, s: State) {
    && (s.producer.Writing? ==> s.fed + (s.pending + Flatten(s.todo)) == archive)
    && (s.producer == Exited(true) ==> s.fed == archive)
  }

  lemma {:induction false} CompleteMeansAllFed(writes: seq<Data>, actions: seq<Action>)
    requires Run(Start(writes), actions).Some?
    ensures Accounted(Flatten(writes), Run(Start(writes), actions).value)
  {
    if actions != [] {
      var n := |actions| - 1;
      CompleteMeansAllFed(writes, actions[..n]);
      StepAccounts(Flatten(writes), Run(Start(writes), actions[..n]).value, actions[n]);
    }
  }

  lemma StepAccounts(archive: Data, s: State, a: Action)
    requires Accounted(archive, s) && Enabled(s, a)
    ensures Accounted(archive, Step(s, a))
  {
    match a
    case NextWrite =>
    case FillBuffer => FillAccounts(archive, s);
    case FinishChunk => assert s.fed + ([] + Flatten([])) == s.fed;
    case FinishEmpty => assert s.fed + ([] + Flatten([])) == s.fed;
    case _ =>
  }

  lemma FillAccounts(archive: Data, s: State)
    requires Accounted(archive, s) && Enabled(s, FillBuffer)
    ensures Accounted(archive, Step(s, FillBuffer))
  {
    var s', rest := Step(s, FillBuffer), Flatten(s.todo);
    var take := |s'.fed| - |s.fed|;
    assert s.fed + (s.pending + rest) == s.fed + s.pending[..take] + (s.pending[take..] + rest);
  }
}
