/**
 The rotating application log: a current file and numbered rotations of it, renamed in
 place under a write lock. File operations succeed; index 0 is the current file and index
 k the file with suffix `.k`.
 */
module LogRotation {
  import opened Wrappers

  type Entry = seq<bv8>

  const U64_MAX: nat := 0xFFFF_FFFF_FFFF_FFFF

  datatype Level = Trace | Debug | Info | Warn | Error | Off
  {
    function Rank(): nat {
      match this
      case Trace => 0
      case Debug => 1
      case Info => 2
      case Warn => 3
      case Error => 4
      case Off => 5
    }

    /** Whether a logger at this minimum level writes an event. */
    predicate Enables(event: Level) {
      this != Off && event != Off && event.Rank() >= Rank()
    }
  }

  /** The levels an event can have, least severe first. */
  const SEVERITY: seq<Level> := [Trace, Debug, Info, Warn, Error]

  /** An event is written exactly when it is no less severe than the minimum, and neither of the
      two is `Off`. */
  lemma EnablesMeaning(minimum: Level, event: Level)
    ensures minimum.Enables(event) <==>
      exists i, j :: 0 <= i <= j < |SEVERITY| && SEVERITY[i] == minimum && SEVERITY[j] == event
  {
    if minimum != Off && event != Off {
      assert SEVERITY[minimum.Rank()] == minimum && SEVERITY[event.Rank()] == event;
    }
  }

  function SaturatingAdd(a: nat, b: nat): nat {
    if a + b <= U64_MAX then a + b else U64_MAX
  }

  type Directory = map<nat, seq<bv8>>

  function At(files: Directory, k: nat): Option<seq<bv8>> {
    if k in files then Some(files[k]) else None
  }

  /** A rotation: every file one index up, the oldest retained one gone. */
  ghost predicate Rotated(before: Directory, after: Directory, retained: nat) {
    forall k: nat {:trigger At(after, k)} :: At(after, k) == if 1 <= k <= retained then At(before, k - 1) else None
  }

  /** Half-way through: indices above `i` already moved up, index `i + 1` now free. */
  ghost predicate Rotating(before: Directory, files: Directory, retained: nat, i: nat) {
    forall k: nat {:trigger At(files, k)} ::
      At(files, k) == if k <= i then At(before, k) else if i + 2 <= k <= retained then At(before, k - 1) else None
  }

  function Rename(files: Directory, source: nat, target: nat): Directory
    requires source in files
  {
    files[target := files[source]] - {source}
  }

  /** A rotation followed by the first entry of a new current file. */
  ghost predicate StartedAfresh(before: Directory, after: Directory, encoded: Entry, retained: nat) {
    forall k: nat {:trigger At(after, k)} ::
      At(after, k) == if k == 0 then Some(encoded) else if k <= retained then At(before, k - 1) else None
  }

  lemma RotatedThenWritten(before: Directory, rotated: Directory, encoded: Entry, retained: nat)
    requires Rotated(before, rotated, retained)
    ensures 0 !in rotated && StartedAfresh(before, rotated[0 := [] + encoded], encoded, retained)
  {
    assert At(rotated, 0) == None && [] + encoded == encoded;
    var after := rotated[0 := [] + encoded];
    assert forall k: nat {:trigger At(after, k)} :: k > 0 ==> At(after, k) == At(rotated, k);
  }

  lemma RenameAt(files: Directory, source: nat, target: nat)
    requires source in files && source != target
    ensures forall k: nat {:trigger At(Rename(files, source, target), k)} ::
      At(Rename(files, source, target), k) ==
      if k == target then At(files, source) else if k == source then None else At(files, k)
  {
  }

  lemma RotatingStep(before: Directory, files: Directory, retained: nat, i: nat)
    requires Rotating(before, files, retained, i) && 1 <= i < retained
    ensures Rotating(before, if i in files then Rename(files, i, i + 1) else files, retained, i - 1)
  {
    var files' := if i in files then Rename(files, i, i + 1) else files;
    if i in files {
      RenameAt(files, i, i + 1);
    }
    forall k: nat
      ensures At(files', k) ==
        if k <= i - 1 then At(before, k) else if i + 1 <= k <= retained then At(before, k - 1) else None
    {
      assert At(files, i) == At(before, i) && At(files, i + 1) == None;
      assert At(files, k) ==
        if k <= i then At(before, k) else if i + 2 <= k <= retained then At(before, k - 1) else None;
    }
  }

  function Bytes(entries: seq<Entry>): seq<bv8> {
    if entries == [] then [] else Bytes(entries[..|entries| - 1]) + entries[|entries| - 1]
  }

  /** The entries of all files, oldest first; `batches` lists the files newest first. */
  function Kept(batches: seq<seq<Entry>>): seq<Entry> {
    if batches == [] then [] else Kept(batches[1..]) + batches[0]
  }

  lemma {:induction false} KeptSplit(batches: seq<seq<Entry>>, n: nat)
    requires n <= |batches|
    ensures Kept(batches) == Kept(batches[n..]) + Kept(batches[..n])
  {
    if n == 0 {
      assert batches[0..] == batches && Kept(batches[..0]) == [];
    } else {
      KeptSplit(batches[1..], n - 1);
      assert batches[1..][n - 1..] == batches[n..] && batches[1..][..n - 1] == batches[..n][1..];
    }
  }

  predicate IsSuffix(s: seq<Entry>, whole: seq<Entry>) {
    |s| <= |whole| && whole[|whole| - |s|..] == s
  }

  /** Each file holds whole entries, and more than the limit only when that is one entry. */
  ghost predicate FileOk(file: seq<bv8>, batch: seq<Entry>, maxFileBytes: nat) {
    && batch != [] && file == Bytes(batch) && file != []
    && (maxFileBytes < U64_MAX ==> |file| <= maxFileBytes || |batch| == 1)
  }

  /** The current file has something in it and no room for an entry of this many bytes. A limit
      beyond what a byte counter can show is no limit. */
  ghost predicate Overflows(files: Directory, incoming: nat, maxFileBytes: nat) {
    0 in files && files[0] != [] && maxFileBytes < U64_MAX && |files[0]| + incoming > maxFileBytes
  }

  /** File `k` was rotated out for want of room: the entry that begins the next one did not fit. */
  ghost predicate RotatedOutFull(files: Directory, batches: seq<seq<Entry>>, maxFileBytes: nat, k: nat)
    requires 0 < k < |batches|
  {
    && k in files && batches[k - 1] != []
    && maxFileBytes < U64_MAX && |files[k]| + |batches[k - 1][0]| > maxFileBytes
  }

  ghost predicate FilesHold(files: Directory, batches: seq<seq<Entry>>, maxFileBytes: nat) {
    && (forall k: nat :: k in files <==> k < |batches|)
    && (forall k: nat :: k < |batches| ==> FileOk(files[k], batches[k], maxFileBytes))
    && (forall k: nat :: 0 < k < |batches| ==> RotatedOutFull(files, batches, maxFileBytes, k))
  }

  class AppLogger {
    const minimumLevel: Level
    const maxFileBytes: nat
    const retainedFiles: nat
    var files: Directory
    ghost var emitted: seq<Entry>
    ghost var batches: seq<seq<Entry>>

    /** No index gaps, at most `retainedFiles` rotations, and file.N ++ ... ++ file.1 ++
        current is a contiguous suffix of everything emitted. */
    ghost predicate Valid()
      reads this
    {
      && retainedFiles >= 1
      && |batches| <= retainedFiles + 1
      && FilesHold(files, batches, maxFileBytes)
      && IsSuffix(Kept(batches), emitted)
    }

    constructor (minimumLevel: Level, maxFileBytes: nat, retainedFiles: nat)
      requires retainedFiles >= 1
      ensures Valid() && emitted == [] && files == map[]
      ensures this.minimumLevel == minimumLevel
      ensures this.maxFileBytes == maxFileBytes && this.retainedFiles == retainedFiles
    {
      this.minimumLevel, this.maxFileBytes, this.retainedFiles := minimumLevel, maxFileBytes, retainedFiles;
      files, emitted, batches := map[], [], [];
    }

    /** Removes the oldest rotation and renames the others upwards, highest index first, so
        that no rename overwrites a file still to be moved. */
    method RotateIfRequired(incoming: nat)
      requires retainedFiles >= 1 && forall k <- files :: k <= retainedFiles
      modifies `files
      ensures if old(Overflows(files, incoming, maxFileBytes)) then Rotated(old(files), files, retainedFiles)
        else files == old(files)
    {
      if 0 !in files || |files[0]| == 0 || SaturatingAdd(|files[0]|, incoming) <= maxFileBytes {
        return;
      }
      ghost var before := files;
      if retainedFiles in files {
        files := files - {retainedFiles};
      }
      var i: nat := retainedFiles - 1;
      while i >= 1
        invariant i < retainedFiles
        invariant Rotating(before, files, retainedFiles, i)
      {
        RotatingStep(before, files, retainedFiles, i);
        if i in files {
          files := Rename(files, i, i + 1);
        }
        i := i - 1;
      }
      assert At(files, 0) == At(before, 0);
      RenameAt(files, 0, 1);
      files := Rename(files, 0, 1);
    }

    /** Writes one encoded entry, which ends in a newline and so is never empty. Every run of
        writes keeps the invariant; only a rotation removes anything, and only the oldest file. */
    method Write(level: Level, encoded: Entry) returns (r: Result<(), string>)
      requires Valid() && encoded != []
      modifies this
      ensures Valid()
      ensures r.Err? <==> level.Off?
      ensures emitted == if minimumLevel.Enables(level) then old(emitted) + [encoded] else old(emitted)
      ensures !minimumLevel.Enables(level) ==> files == old(files)
      ensures minimumLevel.Enables(level) ==>
        if old(Overflows(files, |encoded|, maxFileBytes)) then StartedAfresh(old(files), files, encoded, retainedFiles)
        else files == old(files)[0 := (if 0 in old(files) then old(files)[0] else []) + encoded]
    {
      if level.Off? {
        return Err("off is a configuration level and cannot be emitted");
      }
      if !minimumLevel.Enables(level) {
        return Ok(());
      }
      ghost var rotate := Overflows(files, |encoded|, maxFileBytes);
      RotateIfRequired(|encoded|);
      ghost var older := if rotate then batches[..if |batches| <= retainedFiles then |batches| else retainedFiles]
                         else if batches == [] then [] else batches[1..];
      ghost var open := if rotate || batches == [] then [] else batches[0];
      WrittenFiles(old(files), files, batches, older, open, encoded, maxFileBytes, retainedFiles, rotate);
      WrittenEntries(batches, older, open, encoded, emitted, rotate);
      if rotate {
        RotatedThenWritten(old(files), files, encoded, retainedFiles);
      }
      files := files[0 := (if 0 in files then files[0] else []) + encoded];
      batches := [open + [encoded]] + older;
      emitted := emitted + [encoded];
      return Ok(());
    }
  }

  lemma WrittenFiles(before: Directory, files: Directory, batches: seq<seq<Entry>>, older: seq<seq<Entry>>,
                     open: seq<Entry>, encoded: Entry, maxFileBytes: nat, retained: nat, rotate: bool)
    requires retained >= 1 && |batches| <= retained + 1 && FilesHold(before, batches, maxFileBytes) && encoded != []
    requires rotate ==>
      && batches != [] && Rotated(before, files, retained) && open == []
      && Overflows(before, |encoded|, maxFileBytes)
      && older == batches[..if |batches| <= retained then |batches| else retained]
    requires !rotate ==>
      && files == before
      && (if batches == [] then older == [] && open == [] else older == batches[1..] && open == batches[0])
    requires !rotate ==> !Overflows(before, |encoded|, maxFileBytes)
    ensures var current := (if 0 in files then files[0] else []) + encoded;
      FilesHold(files[0 := current], [open + [encoded]] + older, maxFileBytes)
    ensures |older| <= retained
  {
    assert (open + [encoded])[..|open|] == open;
    assert Bytes(open + [encoded]) == Bytes(open) + encoded;
    if !rotate && batches != [] {
      assert FileOk(before[0], batches[0], maxFileBytes);
    }
    var batches' := [open + [encoded]] + older;
    var files' := files[0 := (if 0 in files then files[0] else []) + encoded];
    assert rotate ==> At(files, 0) == None;
    forall k: nat
      ensures k in files' <==> k < |batches'|
      ensures k < |batches'| ==> FileOk(files'[k], batches'[k], maxFileBytes)
    {
      if k > 0 && rotate {
        assert At(files, k) == if k <= retained then At(before, k - 1) else None;
        assert k - 1 in before <==> k - 1 < |batches|;
        assert k - 1 < |batches| ==> FileOk(before[k - 1], batches[k - 1], maxFileBytes);
      } else if k > 0 {
        assert k < |batches| ==> FileOk(before[k], batches[k], maxFileBytes);
      }
    }
    forall k: nat | 0 < k < |batches'|
      ensures RotatedOutFull(files', batches', maxFileBytes, k)
    {
      assert At(files, k) == if rotate then At(before, k - 1) else At(before, k);
      if k > 1 && rotate {
        assert RotatedOutFull(before, batches, maxFileBytes, k - 1);
      } else if !rotate {
        assert RotatedOutFull(before, batches, maxFileBytes, k);
        assert batches'[k - 1][0] == batches[k - 1][0];
      }
    }
  }

  lemma WrittenEntries(batches: seq<seq<Entry>>, older: seq<seq<Entry>>, open: seq<Entry>, encoded: Entry,
                       emitted: seq<Entry>, rotate: bool)
    requires IsSuffix(Kept(batches), emitted)
    requires if rotate then older <= batches && open == []
      else if batches == [] then older == [] && open == [] else older == batches[1..] && open == batches[0]
    ensures IsSuffix(Kept([open + [encoded]] + older), emitted + [encoded])
  {
    assert ([open + [encoded]] + older)[1..] == older;
    var kept := Kept(older) + open;
    if rotate {
      KeptSplit(batches, |older|);
      assert batches[..|older|] == older;
      SuffixTail(Kept(batches[|older|..]), kept, emitted);
    }
    assert Kept([open + [encoded]] + older) == kept + [encoded];
    SuffixAppend(kept, emitted, encoded);
  }

  lemma SuffixTail(front: seq<Entry>, back: seq<Entry>, whole: seq<Entry>)
    requires IsSuffix(front + back, whole)
    ensures IsSuffix(back, whole)
  {
    assert whole[|whole| - |front + back|..][|front|..] == back;
  }

  lemma SuffixAppend(s: seq<Entry>, whole: seq<Entry>, entry: Entry)
    requires IsSuffix(s, whole)
    ensures IsSuffix(s + [entry], whole + [entry])
  {
  }
}
