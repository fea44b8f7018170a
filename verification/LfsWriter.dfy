/** `LfsStore::write` and `write_stream` as the code runs them, statement by statement. Every statement
    is a step of the state machine, so what is proved there about all interleavings applies here. */
module LfsWriter {
  import opened Wrappers
  import opened Bytes
  import opened LfsStore

  datatype ReadResult = Chunk(data: bytes) | ReadError(message: bytes)

  /** The system calls that fail in one call, with their messages. */
  datatype Faults = Faults(
    directories: Option<bytes>, create: Option<bytes>, write: Option<(nat, bytes)>, flush: Option<bytes>,
    rename: Option<bytes>)

  /** What the read loop makes of the rest of the reader, after `fed`: the bytes or the first error.
      `i` counts the chunks for the write that fails. */
  function Gathered(max: nat, reader: seq<ReadResult>, fed: bytes, i: nat, write: Option<(nat, bytes)>):
    Result<bytes, StoreError>
    decreases |reader|
  {
    if reader == [] then Ok(fed)
    else
      match reader[0]
      case ReadError(message) => Err(Storage(message))
      case Chunk(data) =>
        if data == [] then Ok(fed)
        else if |fed| + |data| > max then Err(TOO_LARGE)
        else if write.Some? && write.value.0 == i then Err(Storage(write.value.1))
        else Gathered(max, reader[1..], fed + data, i + 1, write)
  }

  /** The result of `write_stream`. */
  function StreamOutcome(c: Config, oid: bytes, reader: seq<ReadResult>, faults: Faults): Result<bytes, StoreError> {
    if !ValidOid(oid) then Err(InvalidOid)
    else if faults.directories.Some? then Err(Storage(faults.directories.value))
    else if faults.create.Some? then Err(Storage(faults.create.value))
    else
      match Gathered(c.max, reader, [], 0, faults.write)
      case Err(e) => Err(e)
      case Ok(body) =>
        if faults.flush.Some? then Err(Storage(faults.flush.value))
        else if c.sha(body) != oid then Err(HashMismatch)
        else if faults.rename.Some? then Err(Storage(faults.rename.value))
        else Ok(body)
  }

  /** Whether `write` gets as far as its temporary file. */
  predicate WriteStarts(c: Config, oid: bytes, body: bytes, faults: Faults) {
    Admitted(c, oid, Some(body)) && faults.directories == None
  }

  /** The result of `write`. */
  function WriteOutcome(c: Config, oid: bytes, body: bytes, faults: Faults): Outcome {
    if |body| > c.max then Err(TOO_LARGE)
    else if !ValidOid(oid) || c.sha(body) != oid then Err(HashMismatch)
    else if faults.directories.Some? then Err(Storage(faults.directories.value))
    else if faults.write.Some? then Err(Storage(faults.write.value.1))
    else if faults.rename.Some? then Err(Storage(faults.rename.value))
    else Ok(())
  }

  lemma {:induction false} RunAppend(c: Config, s: State, actions: seq<Action>, a: Action)
    ensures Run(c, s, actions + [a]) == Step(c, Run(c, s, actions), a)
    decreases |actions|
  {
    hide Step;
    if actions == [] {
      assert [] + [a] == [a];
      assert [a][1..] == [];
    } else {
      assert (actions + [a])[1..] == actions[1..] + [a];
      RunAppend(c, Step(c, s, actions[0]), actions[1..], a);
    }
  }

  class Store {
    const c: Config
    var files: map<bytes, bytes>
    var nonce: nat
    /** The machine state whose files and nonce these are. */
    ghost var machine: State

    ghost predicate Valid()
      reads this
    {
      machine.files == files && machine.nonce == nonce && Inv(c, machine)
    }

    constructor (c: Config, files: map<bytes, bytes>)
      requires ObjectsOk(c, files)
      ensures Valid() && this.c == c && this.files == files && Initial(c, machine)
    {
      this.c := c;
      this.files := files;
      nonce := 0;
      machine := State(files, 0, map[], map[]);
    }

    /** The machine takes the step that the code has just taken. */
    ghost method Follow(a: Action, start: State, trace: seq<Action>) returns (trace': seq<Action>)
      requires Inv(c, machine) && machine == Run(c, start, trace)
      modifies this`machine
      ensures machine == Step(c, old(machine), a) && Inv(c, machine)
      ensures trace' == trace + [a] && machine == Run(c, start, trace')
    {
      hide *;
      StepKeeps(c, machine, a);
      RunAppend(c, start, trace, a);
      machine := Step(c, machine, a);
      trace' := trace + [a];
    }

    /** Upload `id` is at this point of `write_stream`, and the files and the nonce are the machine's. */
    ghost predicate At(id: nat, u: Upload)
      reads this
    {
      Valid() && id in machine.uploads && machine.uploads[id] == u && ValidOid(u.oid)
    }

    /** The read loop. */
    method ReceiveAll(ghost id: nat, oid: bytes, temporary: bytes, reader: seq<ReadResult>, write: Option<(nat, bytes)>,
                      ghost n: nat, ghost start: State, ghost trace: seq<Action>)
      returns (r: Result<bytes, StoreError>, ghost trace': seq<Action>)
      requires At(id, Upload(oid, n, false, [], 0, Writing)) && machine == Run(c, start, trace)
      requires temporary == TempPath(oid, c.pid, n)
      modifies this
      ensures r == Gathered(c.max, reader, [], 0, write)
      ensures machine == Run(c, start, trace') && nonce == old(nonce) && SameExcept(old(files), files, temporary)
      ensures r.Ok? ==> At(id, Upload(oid, n, false, r.value, |r.value|, Writing))
      ensures r.Err? ==> exists fed, written :: At(id, Upload(oid, n, false, fed, written, Failing(r.error)))
    {
      hide Step, Run, Inv, TempPath, SameExcept, Gathered;
      var fed: bytes, i := [], 0;
      trace' := trace;
      GatheredAt(c.max, reader, 0, fed, write);
      SameUpdates(files, temporary, []);
      while i < |reader|
        invariant i <= |reader|
        invariant At(id, Upload(oid, n, false, fed, |fed|, Writing)) && machine == Run(c, start, trace')
        invariant Gathered(c.max, reader[i..], fed, i, write) == Gathered(c.max, reader, [], 0, write)
        invariant nonce == old(nonce) && SameExcept(old(files), files, temporary)
      {
        GatheredAt(c.max, reader, i, fed, write);
        if reader[i].ReadError? {
          FaultStep(c, machine, id, reader[i].message);
          trace' := Follow(Fault(id, reader[i].message), start, trace');
          return Err(Storage(reader[i].message)), trace';
        }
        var data := reader[i].data;
        if data == [] {
          break;
        }
        if |fed| + |data| > c.max {
          ReceiveStep(c, machine, id, data);
          trace' := Follow(Receive(id, data), start, trace');
          return Err(TOO_LARGE), trace';
        }
        if write.Some? && write.value.0 == i {
          FaultStep(c, machine, id, write.value.1);
          trace' := Follow(Fault(id, write.value.1), start, trace');
          return Err(Storage(write.value.1)), trace';
        }
        ReceiveStep(c, machine, id, data);
        trace' := Follow(Receive(id, data), start, trace');
        DiskStep(c, machine, id, data);
        trace' := Follow(Disk(id, |data|), start, trace');
        SameChain(old(files), files, temporary, fed + data);
        fed := fed + data;
        files := files[temporary := fed];
        i := i + 1;
      }
      if i == |reader| {
        GatheredAt(c.max, reader, i, fed, write);
      }
      r := Ok(fed);
    }

    /** The `async` block of `write_stream`: from creating the temporary file to renaming it. */
    method Transfer(ghost id: nat, oid: bytes, temporary: bytes, reader: seq<ReadResult>, faults: Faults,
                    ghost n: nat, ghost start: State, ghost trace: seq<Action>)
      returns (r: Result<bytes, StoreError>, ghost trace': seq<Action>)
      requires At(id, Upload(oid, n, false, [], 0, Reserved)) && machine == Run(c, start, trace)
      requires temporary == TempPath(oid, c.pid, n) && faults.directories == None
      modifies this
      ensures r == StreamOutcome(c, oid, reader, faults)
      ensures Valid() && machine == Run(c, start, trace') && nonce == old(nonce)
      ensures r.Ok? ==> files == (old(files) - {temporary})[ObjectPath(oid) := r.value]
      ensures r.Ok? ==> At(id, Upload(oid, n, false, r.value, |r.value|, Finished(Ok(()))))
      ensures r.Err? ==> SameExcept(old(files), files, temporary)
      ensures r.Err? ==> exists fed, written :: At(id, Upload(oid, n, false, fed, written, Failing(r.error)))
    {
      hide Step, Run, Inv, TempPath, ObjectPath, SameExcept, Gathered;
      SameUpdates(files, temporary, []);
      CreateStep(c, machine, id, faults.create);
      trace' := Follow(Create(id, faults.create), start, trace);
      if faults.create.Some? {
        return Err(Storage(faults.create.value)), trace';
      }
      files := files[temporary := []];
      label created:
      r, trace' := ReceiveAll(id, oid, temporary, reader, faults.write, n, start, trace');
      SameTwice(old(files), old@created(files), files, temporary);
      if r.Err? {
        return;
      }
      DrainStep(c, machine, id);
      trace' := Follow(Eof(id), start, trace');
      if faults.flush.Some? {
        FaultStep(c, machine, id, faults.flush.value);
        trace' := Follow(Fault(id, faults.flush.value), start, trace');
        return Err(Storage(faults.flush.value)), trace';
      }
      trace' := Follow(Sync(id), start, trace');
      PublishStep(c, machine, id, faults.rename);
      trace' := Follow(Publish(id, faults.rename), start, trace');
      if c.sha(r.value) != oid {
        return Err(HashMismatch), trace';
      }
      if faults.rename.Some? {
        return Err(Storage(faults.rename.value)), trace';
      }
      RenamedFiles(old(files), files, temporary, ObjectPath(oid), r.value);
      files := (files - {temporary})[ObjectPath(oid) := r.value];
    }

    /** `write_stream`: stores exactly what the reader yields, or nothing; either way no temporary is left. */
    method WriteStream(ghost id: nat, oid: bytes, reader: seq<ReadResult>, faults: Faults)
      returns (r: Result<bytes, StoreError>, ghost trace: seq<Action>)
      requires Valid() && id !in machine.uploads
      modifies this
      ensures Valid() && machine == Run(c, old(machine), trace)
      ensures r == StreamOutcome(c, oid, reader, faults)
      ensures nonce == if ValidOid(oid) && faults.directories == None then old(nonce) + 1 else old(nonce)
      ensures ValidOid(oid) ==>
        files == (if faults.directories.Some? then old(files)
                  else if r.Ok? then (old(files) - {TempPath(oid, c.pid, old(nonce))})[ObjectPath(oid) := r.value]
                  else old(files) - {TempPath(oid, c.pid, old(nonce))})
      ensures !ValidOid(oid) ==> files == old(files)
    {
      hide Step, Run, Inv, TempPath, ObjectPath, SameExcept, Gathered;
      trace := [];
      RunNothing(c, machine);
      if !ValidOid(oid) {
        return Err(InvalidOid), trace;
      }
      if faults.directories.Some? {
        return Err(Storage(faults.directories.value)), trace;
      }
      var temporary := TempPath(oid, c.pid, nonce);
      ghost var n := nonce;
      BeginStep(c, machine, id, oid);
      trace := Follow(Begin(id, oid, None), old(machine), trace);
      nonce := nonce + 1;
      r, trace := Transfer(id, oid, temporary, reader, faults, n, old(machine), trace);
      if r.Err? {
        CleanupStep(c, machine, id);
        trace := Follow(Cleanup(id), old(machine), trace);
        RemovedFiles(old(files), files, temporary);
        files := files - {temporary};
      }
    }

    /** `write`: a failing `fs::write` that created its file leaves `leak` of the body behind. */
    method Write(ghost id: nat, oid: bytes, body: bytes, faults: Faults, leak: Option<nat>)
      returns (r: Outcome, ghost trace: seq<Action>)
      requires Valid() && id !in machine.uploads && (leak.Some? ==> leak.value <= |body|)
      modifies this
      ensures Valid() && machine == Run(c, old(machine), trace)
      ensures r == WriteOutcome(c, oid, body, faults)
      ensures nonce == if WriteStarts(c, oid, body, faults) then old(nonce) + 1 else old(nonce)
      ensures !WriteStarts(c, oid, body, faults) ==> files == old(files)
      ensures WriteStarts(c, oid, body, faults) ==>
        var temporary := TempPath(oid, c.pid, old(nonce));
        files == (if r.Ok? then (old(files) - {temporary})[ObjectPath(oid) := body]
                  else if faults.write == None then old(files) - {temporary}
                  else if leak.Some? then old(files)[temporary := body[..leak.value]]
                  else old(files))
    {
      hide Run, Inv, TempPath, ObjectPath, SameExcept, UploadStep, CanStep, Step;
      trace := [];
      RunNothing(c, machine);
      if |body| > c.max {
        return Err(TOO_LARGE), trace;
      }
      if !ValidOid(oid) || c.sha(body) != oid {
        return Err(HashMismatch), trace;
      }
      if faults.directories.Some? {
        return Err(Storage(faults.directories.value)), trace;
      }
      var temporary := TempPath(oid, c.pid, nonce);
      WholeSteps(c, machine, id, oid, body, faults.rename);
      trace := Follow(Begin(id, oid, Some(body)), old(machine), trace);
      nonce := nonce + 1;
      if faults.write.Some? {
        FailingWrite(c, old(machine), id, oid, body, faults.write.value.1, leak);
        var result := if leak.Some? then Partial(leak.value) else NotCreated;
        trace := Follow(WriteWhole(id, result, faults.write.value.1), old(machine), trace);
        if leak.Some? {
          files := files[temporary := body[..leak.value]];
        }
        return Err(Storage(faults.write.value.1)), trace;
      }
      trace := Follow(WriteWhole(id, Complete, []), old(machine), trace);
      trace := Follow(Publish(id, faults.rename), old(machine), trace);
      if faults.rename.Some? {
        trace := Follow(Cleanup(id), old(machine), trace);
        files := files - {temporary};
        return Err(Storage(faults.rename.value)), trace;
      }
      files := (files - {temporary})[ObjectPath(oid) := body];
      r := Ok(());
    }
  }

  lemma GatheredAt(max: nat, reader: seq<ReadResult>, i: nat, fed: bytes, write: Option<(nat, bytes)>)
    requires i <= |reader|
    ensures reader[0..] == reader
    ensures i == |reader| ==> Gathered(max, reader[i..], fed, i, write) == Ok(fed)
    ensures i < |reader| ==> Gathered(max, reader[i..], fed, i, write) == match reader[i]
      case ReadError(message) => Err(Storage(message))
      case Chunk(data) =>
        if data == [] then Ok(fed)
        else if |fed| + |data| > max then Err(TOO_LARGE)
        else if write.Some? && write.value.0 == i then Err(Storage(write.value.1))
        else Gathered(max, reader[i + 1..], fed + data, i + 1, write)
  {
    if i < |reader| {
      assert reader[i..][1..] == reader[i + 1..];
    }
  }

  lemma SameChain(a: map<bytes, bytes>, b: map<bytes, bytes>, path: bytes, content: bytes)
    requires SameExcept(a, b, path)
    ensures SameExcept(a, b[path := content], path)
  {
    SameUpdates(b, path, content);
  }

  lemma FaultStep(c: Config, s: State, id: nat, message: bytes)
    requires id in s.uploads && ValidOid(s.uploads[id].oid)
    requires s.uploads[id].phase == Writing || s.uploads[id].phase == Draining
    ensures Step(c, s, Fault(id, message))
         == WithUpload(s, id, s.uploads[id].(phase := Failing(Storage(message))))
  {
  }

  lemma ReceiveStep(c: Config, s: State, id: nat, data: bytes)
    requires id in s.uploads && ValidOid(s.uploads[id].oid) && s.uploads[id].phase == Writing && data != []
    ensures var u := s.uploads[id];
      Step(c, s, Receive(id, data)) == WithUpload(s, id,
        if |u.fed| + |data| > c.max then u.(phase := Failing(TOO_LARGE)) else u.(fed := u.fed + data))
  {
  }

  lemma DiskStep(c: Config, s: State, id: nat, data: bytes)
    requires Inv(c, s) && id in s.uploads && ValidOid(s.uploads[id].oid) && data != []
    requires var u := s.uploads[id];
      u.phase == Writing && !u.whole && u.written + |data| == |u.fed|
    ensures var u := s.uploads[id];
      Step(c, s, Disk(id, |data|)) == WithUpload(s.(files := s.files[Temp(c, u) := u.fed]), id, u.(written := |u.fed|))
  {
    var u := s.uploads[id];
    assert UploadOk(c, s, u);
    assert u.fed[..|u.fed|] == u.fed;
    hide TempPath, ObjectPath, UploadOk;
  }

  lemma RunNothing(c: Config, s: State)
    ensures Run(c, s, []) == s
  {
  }

  lemma SameTwice(a: map<bytes, bytes>, b: map<bytes, bytes>, d: map<bytes, bytes>, path: bytes)
    requires SameExcept(a, b, path) && SameExcept(b, d, path)
    ensures SameExcept(a, d, path)
  {
  }

  lemma RenamedFiles(a: map<bytes, bytes>, b: map<bytes, bytes>, path: bytes, target: bytes, content: bytes)
    requires SameExcept(a, b, path)
    ensures (b - {path})[target := content] == (a - {path})[target := content]
  {
  }

  lemma RemovedFiles(a: map<bytes, bytes>, b: map<bytes, bytes>, path: bytes)
    requires SameExcept(a, b, path)
    ensures b - {path} == a - {path}
  {
  }

  lemma BeginStep(c: Config, s: State, id: nat, oid: bytes)
    requires id !in s.uploads && ValidOid(oid)
    ensures Step(c, s, Begin(id, oid, None))
         == WithUpload(s.(nonce := s.nonce + 1), id, Upload(oid, s.nonce, false, [], 0, Reserved))
  {
  }

  lemma CreateStep(c: Config, s: State, id: nat, failure: Option<bytes>)
    requires id in s.uploads && ValidOid(s.uploads[id].oid)
    requires s.uploads[id].phase == Reserved && !s.uploads[id].whole
    ensures var u := s.uploads[id];
      Step(c, s, Create(id, failure))
      == if failure.Some? then WithUpload(s, id, u.(phase := Failing(Storage(failure.value))))
         else WithUpload(s.(files := s.files[Temp(c, u) := []]), id, u.(phase := Writing))
  {
    hide TempPath;
  }

  lemma DrainStep(c: Config, s: State, id: nat)
    requires id in s.uploads && ValidOid(s.uploads[id].oid) && s.uploads[id].phase == Writing
    ensures var s' := WithUpload(s, id, s.uploads[id].(phase := Draining));
      Step(c, s, Eof(id)) == s'
      && (s.uploads[id].written == |s.uploads[id].fed| ==>
            Step(c, s', Sync(id)) == WithUpload(s', id, s'.uploads[id].(phase := Synced)))
  {
    hide TempPath;
  }

  lemma PublishStep(c: Config, s: State, id: nat, failure: Option<bytes>)
    requires Inv(c, s) && id in s.uploads && ValidOid(s.uploads[id].oid) && s.uploads[id].phase == Synced
    ensures var u := s.uploads[id];
      Step(c, s, Publish(id, failure))
      == if c.sha(u.fed) != u.oid then WithUpload(s, id, u.(phase := Failing(HashMismatch)))
         else if failure.Some? then WithUpload(s, id, u.(phase := Failing(Storage(failure.value))))
         else WithUpload(s.(files := (s.files - {Temp(c, u)})[ObjectPath(u.oid) := u.fed]), id,
                         u.(phase := Finished(Ok(()))))
  {
    assert UploadOk(c, s, s.uploads[id]);
    hide TempPath, ObjectPath;
  }

  lemma CleanupStep(c: Config, s: State, id: nat)
    requires id in s.uploads && ValidOid(s.uploads[id].oid) && s.uploads[id].phase.Failing?
    ensures var u := s.uploads[id];
      Step(c, s, Cleanup(id))
      == WithUpload(s.(files := s.files - {Temp(c, u)}), id, u.(phase := Finished(Err(u.phase.error))))
  {
    hide TempPath;
  }

  /** The steps of one call of `write`, one after the other. */
  lemma WholeSteps(c: Config, s: State, id: nat, oid: bytes, body: bytes, rename: Option<bytes>)
    requires id !in s.uploads && Admitted(c, oid, Some(body))
    ensures var temporary := TempPath(oid, c.pid, s.nonce);
      var s1 := Step(c, s, Begin(id, oid, Some(body)));
      && s1.files == s.files && s1.nonce == s.nonce + 1
      && var s2 := Step(c, s1, WriteWhole(id, Complete, []));
      && s2.nonce == s1.nonce && s2.files == s.files[temporary := body]
      && var s3 := Step(c, s2, Publish(id, rename));
      && s3.nonce == s1.nonce
      && (rename == None ==> s3.files == (s.files - {temporary})[ObjectPath(oid) := body])
      && (rename.Some? ==>
            s3.files == s2.files
            && Step(c, s3, Cleanup(id)).files == s.files - {temporary} && Step(c, s3, Cleanup(id)).nonce == s1.nonce)
  {
    hide TempPath, ObjectPath;
  }

  lemma FailingWrite(c: Config, s: State, id: nat, oid: bytes, body: bytes, message: bytes, leak: Option<nat>)
    requires id !in s.uploads && Admitted(c, oid, Some(body)) && (leak.Some? ==> leak.value <= |body|)
    ensures var temporary := TempPath(oid, c.pid, s.nonce);
      var s1 := Step(c, s, Begin(id, oid, Some(body)));
      var s2 := Step(c, s1, WriteWhole(id, if leak.Some? then Partial(leak.value) else NotCreated, message));
      && s2.nonce == s.nonce + 1
      && s2.files == if leak.Some? then s.files[temporary := body[..leak.value]] else s.files
  {
    hide TempPath, ObjectPath;
  }
}
