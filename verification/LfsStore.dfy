/** The LFS object store as a state machine: many uploads and readers interleave their file-system
    steps, and an upload may stop at any of them. SHA-256 is any function of the bytes it is fed. */
module LfsStore {
  import opened Wrappers
  import opened Bytes
  import opened Decimal

  datatype StoreError = InvalidOid | NotFound | HashMismatch | Storage(message: bytes)

  const TOO_LARGE: StoreError := Storage("object too large")

  /** The configured limit, the process id in temporary names, and the hex digest of a byte string. */
  datatype Config = Config(max: nat, pid: nat, sha: bytes -> bytes)

  predicate ValidOid(oid: bytes) {
    |oid| == 64 && forall i | 0 <= i < |oid| :: IsLowerHex(oid[i])
  }

  /* Paths below the object directory. */

  function Parent(oid: bytes): bytes
    requires ValidOid(oid)
  {
    oid[..2] + "/" + oid[2..4]
  }

  function ObjectPath(oid: bytes): bytes
    requires ValidOid(oid)
  {
    Parent(oid) + "/" + oid
  }

  function TempPath(oid: bytes, pid: nat, nonce: nat): bytes
    requires ValidOid(oid)
  {
    Parent(oid) + "/." + oid + "." + Digits(pid) + "." + Digits(nonce) + ".tmp"
  }

  lemma ObjectPathInjective(a: bytes, b: bytes)
    requires ValidOid(a) && ValidOid(b) && ObjectPath(a) == ObjectPath(b)
    ensures a == b
  {
    assert ObjectPath(a)[6..] == a;
    assert ObjectPath(b)[6..] == b;
  }

  lemma TempIsNotObject(a: bytes, pid: nat, nonce: nat, b: bytes)
    requires ValidOid(a) && ValidOid(b)
    ensures TempPath(a, pid, nonce) != ObjectPath(b)
  {
    assert TempPath(a, pid, nonce)[6] == '.';
    assert ObjectPath(b)[6] == b[0];
  }

  lemma TempPathInjective(a: bytes, b: bytes, pid: nat, m: nat, n: nat)
    requires ValidOid(a) && ValidOid(b) && TempPath(a, pid, m) == TempPath(b, pid, n)
    ensures a == b && m == n
  {
    var s, t := TempPath(a, pid, m), TempPath(b, pid, n);
    var k := 73 + |Digits(pid)|;
    assert s[7..71] == a && t[7..71] == b;
    assert s[k..] == Digits(m) + ".tmp" && t[k..] == Digits(n) + ".tmp";
    assert s[k..][..|s[k..]| - 4] == Digits(m) && t[k..][..|t[k..]| - 4] == Digits(n);
    NumberDigits(m);
    NumberDigits(n);
  }

  /* The state machine. */

  type Outcome = Result<(), StoreError>

  /** Where an upload stands between two steps of the source. */
  datatype Phase =
    | Reserved                      // the nonce is taken, the temporary file not yet created
    | Writing                       // `write_stream` is in its read loop
    | Draining                      // the reader has ended, the file is not yet flushed
    | Synced                        // every byte is in the temporary file
    | Failing(error: StoreError)    // an error is on its way, the temporary file still to be removed
    | Finished(outcome: Outcome)
    | Leaked(reason: StoreError, left: bool)  // `write` failed to write; whether its temporary file is there
    | Abandoned                     // the request went away

  /** One call of `write_stream`, or of `write` when `whole` holds. `fed` is what was hashed so far, and
      the first `written` bytes of it have reached the file. */
  datatype Upload = Upload(oid: bytes, nonce: nat, whole: bool, fed: bytes, written: nat, phase: Phase)

  /** One call of `open_stream`, between the two file-system calls and after them. */
  datatype Reader = Statted(oid: bytes, length: nat) | Opened(oid: bytes, length: nat, content: bytes)

  datatype State = State(
    files: map<bytes, bytes>, nonce: nat, uploads: map<nat, Upload>, readers: map<nat, Reader>)

  datatype WholeWrite = Complete | Partial(n: nat) | NotCreated

  datatype Action =
    | Begin(id: nat, oid: bytes, body: Option<bytes>)
    | Create(id: nat, failure: Option<bytes>)
    | WriteWhole(id: nat, result: WholeWrite, message: bytes)
    | Receive(id: nat, chunk: bytes)
    | Eof(id: nat)
    | Disk(id: nat, n: nat)
    | Fault(id: nat, message: bytes)
    | Sync(id: nat)
    | Publish(id: nat, failure: Option<bytes>)
    | Cleanup(id: nat)
    | Abandon(id: nat)
    | Stat(rid: nat, oid: bytes)
    | OpenFile(rid: nat)

  function Temp(c: Config, u: Upload): bytes
    requires ValidOid(u.oid)
  {
    TempPath(u.oid, c.pid, u.nonce)
  }

  /** What `write` checks before it touches the store; `write_stream` only checks the object id. */
  predicate Admitted(c: Config, oid: bytes, body: Option<bytes>) {
    ValidOid(oid) && (body.Some? ==> |body.value| <= c.max && c.sha(body.value) == oid)
  }

  predicate CanStep(s: State, a: Action) {
    match a
    case Begin(id, _, _) => id !in s.uploads
    case Stat(rid, _) => rid !in s.readers
    case OpenFile(rid) => rid in s.readers && s.readers[rid].Statted?
    case _ => a.id in s.uploads && ValidOid(s.uploads[a.id].oid)
  }

  function WithUpload(s: State, id: nat, u: Upload): State {
    s.(uploads := s.uploads[id := u])
  }

  /** One step; an action that is not enabled leaves the state alone. */
  function Step(c: Config, s: State, a: Action): State {
    if !CanStep(s, a) then s
    else
      match a
      case Begin(id, oid, body) =>
        if !Admitted(c, oid, body) then s
        else
          var u := Upload(oid, s.nonce, body.Some?, if body.Some? then body.value else [], 0, Reserved);
          WithUpload(s.(nonce := s.nonce + 1), id, u)
      case Stat(rid, oid) => Statting(s, rid, oid)
      case OpenFile(rid) => Opening(s, rid)
      case _ => UploadStep(c, s, a.id, s.uploads[a.id], a)
  }

  function Statting(s: State, rid: nat, oid: bytes): State {
    if ValidOid(oid) && ObjectPath(oid) in s.files
    then s.(readers := s.readers[rid := Statted(oid, |s.files[ObjectPath(oid)]|)]) else s
  }

  function Opening(s: State, rid: nat): State
    requires rid in s.readers && s.readers[rid].Statted?
  {
    var r := s.readers[rid];
    if ValidOid(r.oid) && ObjectPath(r.oid) in s.files
    then s.(readers := s.readers[rid := Opened(r.oid, r.length, s.files[ObjectPath(r.oid)])]) else s
  }

  /** A step of an upload `u` that has its nonce. */
  function UploadStep(c: Config, s: State, id: nat, u: Upload, a: Action): State
    requires ValidOid(u.oid)
  {
    var temp := Temp(c, u);
    match a
    case Create(_, failure) =>
      if u.phase != Reserved || u.whole then s
      else if failure.Some? then WithUpload(s, id, u.(phase := Failing(Storage(failure.value))))
      else WithUpload(s.(files := s.files[temp := []]), id, u.(phase := Writing))
    case WriteWhole(_, result, message) =>
      if u.phase != Reserved || !u.whole then s
      else
        (match result
         case Complete => WithUpload(s.(files := s.files[temp := u.fed]), id, u.(written := |u.fed|, phase := Synced))
         case Partial(n) =>
           if n > |u.fed| then s
           else WithUpload(s.(files := s.files[temp := u.fed[..n]]), id, u.(phase := Leaked(Storage(message), true)))
         case NotCreated => WithUpload(s, id, u.(phase := Leaked(Storage(message), temp in s.files))))
    case Receive(_, chunk) =>
      if u.phase != Writing || chunk == [] then s
      else if |u.fed| + |chunk| > c.max then WithUpload(s, id, u.(phase := Failing(TOO_LARGE)))
      else WithUpload(s, id, u.(fed := u.fed + chunk))
    case Eof(_) =>
      if u.phase != Writing then s else WithUpload(s, id, u.(phase := Draining))
    case Disk(_, n) =>
      if n == 0 || u.written + n > |u.fed| || u.whole || u.phase.Finished? || temp !in s.files then s
      else WithUpload(s.(files := s.files[temp := u.fed[..u.written + n]]), id, u.(written := u.written + n))
    case Fault(_, message) =>
      if u.phase != Writing && u.phase != Draining then s
      else WithUpload(s, id, u.(phase := Failing(Storage(message))))
    case Sync(_) =>
      if u.phase != Draining || u.written != |u.fed| then s else WithUpload(s, id, u.(phase := Synced))
    case Publish(_, failure) =>
      if u.phase != Synced then s
      else if c.sha(u.fed) != u.oid then WithUpload(s, id, u.(phase := Failing(HashMismatch)))
      else if failure.Some? || temp !in s.files then
        WithUpload(s, id, u.(phase := Failing(Storage(if failure.Some? then failure.value else []))))
      else
        WithUpload(s.(files := (s.files - {temp})[ObjectPath(u.oid) := s.files[temp]]), id,
                   u.(phase := Finished(Ok(()))))
    case Cleanup(_) =>
      if !u.phase.Failing? then s
      else WithUpload(s.(files := s.files - {temp}), id, u.(phase := Finished(Err(u.phase.error))))
    case Abandon(_) =>
      if u.phase.Finished? || u.phase.Leaked? then s else WithUpload(s, id, u.(phase := Abandoned))
    case _ => s
  }

  function Run(c: Config, s: State, actions: seq<Action>): State
    decreases |actions|
  {
    if actions == [] then s else Run(c, Step(c, s, actions[0]), actions[1..])
  }

  /* What every reachable state satisfies. */

  /** Every published object is within the limit and hashes to its name. */
  ghost predicate ObjectsOk(c: Config, files: map<bytes, bytes>) {
    forall oid | ValidOid(oid) && ObjectPath(oid) in files ::
      |files[ObjectPath(oid)]| <= c.max && c.sha(files[ObjectPath(oid)]) == oid
  }

  predicate UploadOk(c: Config, s: State, u: Upload) {
    && ValidOid(u.oid) && u.nonce < s.nonce
    && |u.fed| <= c.max && u.written <= |u.fed|
    && match u.phase
       case Reserved => u.written == 0 && (!u.whole ==> u.fed == [])
       case Writing | Draining => Temp(c, u) in s.files && s.files[Temp(c, u)] == u.fed[..u.written]
       case Synced => u.written == |u.fed| && Temp(c, u) in s.files && s.files[Temp(c, u)] == u.fed
       case Finished(outcome) =>
         && Temp(c, u) !in s.files
         && (outcome.Ok? ==> c.sha(u.fed) == u.oid && ObjectPath(u.oid) in s.files)
       case Leaked(_, left) => u.whole && (left <==> Temp(c, u) in s.files)
       case _ => true
  }

  predicate UploadsOk(c: Config, s: State) {
    forall id | id in s.uploads :: UploadOk(c, s, s.uploads[id])
  }

  predicate NoncesDiffer(s: State) {
    forall i, j | i in s.uploads && j in s.uploads && i != j :: s.uploads[i].nonce != s.uploads[j].nonce
  }

  /** Some content of the right digest had the recorded length; an opened file has the right digest. */
  ghost predicate ReaderOk(c: Config, r: Reader) {
    && (exists content :: |content| == r.length && |content| <= c.max && c.sha(content) == r.oid)
    && (r.Opened? ==> |r.content| <= c.max && c.sha(r.content) == r.oid)
  }

  ghost predicate ReadersOk(c: Config, s: State) {
    forall rid | rid in s.readers :: ReaderOk(c, s.readers[rid])
  }

  ghost predicate Inv(c: Config, s: State) {
    ObjectsOk(c, s.files) && UploadsOk(c, s) && NoncesDiffer(s) && ReadersOk(c, s)
  }

  /** A server starts with whatever a former one left, as long as the published objects are sound. */
  ghost predicate Initial(c: Config, s: State) {
    ObjectsOk(c, s.files) && s.nonce == 0 && s.uploads == map[] && s.readers == map[]
  }

  /* Steps keep the invariant. */

  /** The file systems differ at most at `path`. */
  predicate SameExcept(a: map<bytes, bytes>, b: map<bytes, bytes>, path: bytes) {
    a - {path} == b - {path}
  }

  lemma SameAt(a: map<bytes, bytes>, b: map<bytes, bytes>, path: bytes, p: bytes)
    requires SameExcept(a, b, path) && p != path
    ensures p in a <==> p in b
    ensures p in a ==> a[p] == b[p]
  {
    assert p in a - {path} <==> p in b - {path};
  }

  /** Another upload does not notice a change at this upload's temporary path. */
  lemma OtherUploadKept(c: Config, s: State, s': State, u: Upload, other: Upload)
    requires ValidOid(u.oid) && UploadOk(c, s, other) && other.nonce != u.nonce
    requires s.nonce <= s'.nonce && SameExcept(s.files, s'.files, Temp(c, u))
    ensures UploadOk(c, s', other)
  {
    if Temp(c, other) == Temp(c, u) {
      TempPathInjective(other.oid, u.oid, c.pid, other.nonce, u.nonce);
    }
    if ObjectPath(other.oid) == Temp(c, u) {
      TempIsNotObject(u.oid, c.pid, u.nonce, other.oid);
    }
    hide Temp, ObjectPath, SameExcept;
    SameAt(s.files, s'.files, Temp(c, u), Temp(c, other));
    SameAt(s.files, s'.files, Temp(c, u), ObjectPath(other.oid));
  }

  lemma ObjectsKept(c: Config, files: map<bytes, bytes>, files': map<bytes, bytes>, u: Upload)
    requires ObjectsOk(c, files) && ValidOid(u.oid) && SameExcept(files, files', Temp(c, u))
    ensures ObjectsOk(c, files')
  {
    hide ObjectPath, SameExcept;
    forall oid | ValidOid(oid) && ObjectPath(oid) in files'
      ensures |files'[ObjectPath(oid)]| <= c.max && c.sha(files'[ObjectPath(oid)]) == oid
    {
      TempIsNotObject(u.oid, c.pid, u.nonce, oid);
      SameAt(files, files', Temp(c, u), ObjectPath(oid));
    }
  }

  /** An upload owns its nonce. */
  predicate Owns(s: State, id: nat, nonce: nat) {
    forall j | j in s.uploads && j != id :: s.uploads[j].nonce != nonce
  }

  /** A step of one upload that touches only its temporary file. */
  lemma TempStepKeeps(c: Config, s: State, s': State, id: nat, u: Upload)
    requires Inv(c, s) && Owns(s, id, u.nonce)
    requires s'.uploads == s.uploads[id := u] && s.nonce <= s'.nonce && s'.readers == s.readers
    requires UploadOk(c, s', u) && SameExcept(s.files, s'.files, Temp(c, u))
    ensures Inv(c, s')
  {
    hide UploadOk, SameExcept, Temp;
    ValidUpload(c, s', u);
    ObjectsKept(c, s.files, s'.files, u);
    forall j | j in s'.uploads
      ensures UploadOk(c, s', s'.uploads[j])
    {
      if j != id {
        OtherUploadKept(c, s, s', u, s.uploads[j]);
      }
    }
    hide ObjectsOk, ReaderOk;
  }

  lemma ValidUpload(c: Config, s: State, u: Upload)
    requires UploadOk(c, s, u)
    ensures ValidOid(u.oid)
  {
  }

  /** Publishing moves a file of the right digest to its object path. */
  lemma PublishKeeps(c: Config, s: State, s': State, id: nat, u: Upload)
    requires Inv(c, s) && id in s.uploads && s.uploads[id] == u && UploadOk(c, s, u)
    requires u.phase == Synced && c.sha(u.fed) == u.oid
    requires s' == WithUpload(s.(files := (s.files - {Temp(c, u)})[ObjectPath(u.oid) := u.fed]), id,
                              u.(phase := Finished(Ok(()))))
    ensures Inv(c, s')
  {
    var mid := WithUpload(s.(files := s.files - {Temp(c, u)}), id, u.(phase := Abandoned));
    assert Temp(c, u.(phase := Abandoned)) == Temp(c, u);
    TempStepKeeps(c, s, mid, id, u.(phase := Abandoned));
    TempIsNotObject(u.oid, c.pid, u.nonce, u.oid);
    ObjectsGain(c, mid.files, u.oid, u.fed);
    forall j | j in s'.uploads
      ensures UploadOk(c, s', s'.uploads[j])
    {
      if j != id {
        ObjectAdded(c, mid, s', u.oid, u.fed, mid.uploads[j]);
      }
    }
    hide ObjectPath, ObjectsOk, ReaderOk, UploadOk;
  }

  lemma ObjectsGain(c: Config, files: map<bytes, bytes>, oid: bytes, content: bytes)
    requires ObjectsOk(c, files) && ValidOid(oid) && |content| <= c.max && c.sha(content) == oid
    ensures ObjectsOk(c, files[ObjectPath(oid) := content])
  {
    var files' := files[ObjectPath(oid) := content];
    forall o | ValidOid(o) && ObjectPath(o) in files'
      ensures |files'[ObjectPath(o)]| <= c.max && c.sha(files'[ObjectPath(o)]) == o
    {
      if ObjectPath(o) == ObjectPath(oid) {
        ObjectPathInjective(o, oid);
      }
    }
  }

  lemma ObjectAdded(c: Config, s: State, s': State, oid: bytes, content: bytes, u: Upload)
    requires ValidOid(oid) && UploadOk(c, s, u)
    requires s'.files == s.files[ObjectPath(oid) := content] && s'.nonce == s.nonce
    ensures UploadOk(c, s', u)
  {
    TempIsNotObject(u.oid, c.pid, u.nonce, oid);
    hide ObjectPath, TempPath;
  }

  lemma OwnNonce(c: Config, s: State, id: nat)
    requires Inv(c, s) && id in s.uploads
    ensures Owns(s, id, s.uploads[id].nonce) && UploadOk(c, s, s.uploads[id])
  {
    hide ObjectsOk, ReaderOk, UploadOk;
  }

  lemma SameUpdates(files: map<bytes, bytes>, path: bytes, content: bytes)
    ensures SameExcept(files, files, path) && SameExcept(files, files - {path}, path)
    ensures SameExcept(files, files[path := content], path)
  {
    assert files - {path} == files[path := content] - {path};
    assert files - {path} - {path} == files - {path};
  }

  /** Every step but a successful rename touches only the temporary file and keeps the upload sound. */
  ghost predicate StaysLocal(c: Config, s: State, s': State, id: nat, u: Upload)
    requires ValidOid(u.oid)
  {
    s' == s || (
      && id in s'.uploads && s'.uploads == s.uploads[id := s'.uploads[id]]
      && s'.uploads[id].oid == u.oid && s'.uploads[id].nonce == u.nonce
      && s'.nonce == s.nonce && s'.readers == s.readers
      && SameExcept(s.files, s'.files, Temp(c, u)) && UploadOk(c, s', s'.uploads[id]))
  }

  predicate Renames(c: Config, s: State, u: Upload, a: Action)
    requires ValidOid(u.oid)
  {
    a.Publish? && u.phase == Synced && c.sha(u.fed) == u.oid && a.failure == None && Temp(c, u) in s.files
  }

  lemma FileStepLocal(c: Config, s: State, id: nat, u: Upload, a: Action)
    requires UploadOk(c, s, u) && (a.Create? || a.WriteWhole? || a.Disk? || a.Cleanup?)
    ensures StaysLocal(c, s, UploadStep(c, s, id, u, a), id, u)
  {
    hide SameExcept, TempPath, ObjectPath;
    var content :=
      if a.WriteWhole? then if a.result.Partial? && a.result.n <= |u.fed| then u.fed[..a.result.n] else u.fed
      else if a.Disk? && u.written + a.n <= |u.fed| then u.fed[..u.written + a.n] else [];
    SameUpdates(s.files, Temp(c, u), content);
  }

  lemma MemoryStepLocal(c: Config, s: State, id: nat, u: Upload, a: Action)
    requires UploadOk(c, s, u) && !(a.Create? || a.WriteWhole? || a.Disk? || a.Cleanup?) && !Renames(c, s, u, a)
    ensures StaysLocal(c, s, UploadStep(c, s, id, u, a), id, u)
  {
    SameUpdates(s.files, Temp(c, u), []);
    hide SameExcept, TempPath, ObjectPath;
    if a.Receive? {
      assert (u.fed + a.chunk)[..u.written] == u.fed[..u.written];
    }
    assert u.fed[..|u.fed|] == u.fed;
  }

  lemma UploadStepKeeps(c: Config, s: State, id: nat, a: Action)
    requires Inv(c, s) && id in s.uploads && ValidOid(s.uploads[id].oid)
    ensures Inv(c, UploadStep(c, s, id, s.uploads[id], a))
  {
    var u := s.uploads[id];
    var s' := UploadStep(c, s, id, u, a);
    OwnNonce(c, s, id);
    if Renames(c, s, u, a) {
      PublishKeeps(c, s, s', id, u);
    } else {
      hide UploadStep, ObjectsOk, ReaderOk, UploadsOk, NoncesDiffer, Inv, TempPath, ObjectPath, UploadOk, Owns;
      if a.Create? || a.WriteWhole? || a.Disk? || a.Cleanup? {
        FileStepLocal(c, s, id, u, a);
      } else {
        MemoryStepLocal(c, s, id, u, a);
      }
      if s' != s {
        TempStepKeeps(c, s, s', id, s'.uploads[id]);
      }
    }
  }

  lemma BeginKeeps(c: Config, s: State, id: nat, oid: bytes, body: Option<bytes>)
    requires Inv(c, s) && id !in s.uploads && Admitted(c, oid, body)
    ensures Inv(c, Step(c, s, Begin(id, oid, body)))
  {
    var u := Upload(oid, s.nonce, body.Some?, if body.Some? then body.value else [], 0, Reserved);
    var s' := Step(c, s, Begin(id, oid, body));
    SameUpdates(s.files, Temp(c, u), []);
    assert Owns(s, id, u.nonce) by {
      forall j | j in s.uploads
        ensures s.uploads[j].nonce != u.nonce
      {
        assert UploadOk(c, s, s.uploads[j]);
      }
    }
    hide ObjectsOk, ReaderOk, UploadsOk, NoncesDiffer, Inv, TempPath, ObjectPath, SameExcept, Owns;
    TempStepKeeps(c, s, s', id, u);
  }

  lemma ReaderKeeps(c: Config, s: State, rid: nat, a: Action)
    requires Inv(c, s) && CanStep(s, a) && (a.Stat? || a.OpenFile?) && rid == a.rid
    ensures Inv(c, Step(c, s, a))
  {
    hide UploadOk, ObjectPath;
    var s' := Step(c, s, a);
    assert s'.files == s.files && s'.uploads == s.uploads && s'.nonce == s.nonce;
    if s' != s {
      var oid := if a.Stat? then a.oid else s.readers[rid].oid;
      var content := s.files[ObjectPath(oid)];
      assert |content| <= c.max && c.sha(content) == oid;
      if a.OpenFile? {
        assert ReaderOk(c, s.readers[rid]);
      }
      assert ReaderOk(c, s'.readers[rid]);
    }
    UploadsUnmoved(c, s, s');
  }

  lemma UploadsUnmoved(c: Config, s: State, s': State)
    requires UploadsOk(c, s) && s'.files == s.files && s'.uploads == s.uploads && s'.nonce == s.nonce
    ensures UploadsOk(c, s')
  {
    forall id | id in s'.uploads
      ensures UploadOk(c, s', s'.uploads[id])
    {
      assert UploadOk(c, s, s.uploads[id]);
    }
  }

  /** Every step of every upload and reader keeps the store sound. */
  lemma StepKeeps(c: Config, s: State, a: Action)
    requires Inv(c, s)
    ensures Inv(c, Step(c, s, a))
  {
    hide Inv, UploadStep, Admitted, Statting, Opening;
    if CanStep(s, a) {
      match a
      case Begin(id, oid, body) =>
        if Admitted(c, oid, body) {
          BeginKeeps(c, s, id, oid, body);
        }
      case Stat(rid, _) => ReaderKeeps(c, s, rid, a);
      case OpenFile(rid) => ReaderKeeps(c, s, rid, a);
      case _ => UploadStepKeeps(c, s, a.id, a);
    }
  }

  /** Safety over whole runs, however the uploads interleave and wherever they stop. */
  lemma {:induction false} RunKeeps(c: Config, s: State, actions: seq<Action>)
    requires Inv(c, s)
    ensures Inv(c, Run(c, s, actions))
    decreases |actions|
  {
    hide Inv, Step;
    if actions == [] {
    } else {
      StepKeeps(c, s, actions[0]);
      RunKeeps(c, Step(c, s, actions[0]), actions[1..]);
    }
  }

  /** Every state that a server can reach is sound. */
  lemma ReachableSound(c: Config, s: State, actions: seq<Action>)
    requires Initial(c, s)
    ensures Inv(c, Run(c, s, actions))
  {
    assert Inv(c, s);
    hide *;
    RunKeeps(c, s, actions);
  }

  /* What the invariant gives. */

  /** No two uploads share a temporary file, and none is a published object. */
  lemma TemporariesDisjoint(c: Config, s: State, i: nat, j: nat)
    requires Inv(c, s) && i in s.uploads && j in s.uploads && i != j
    ensures ValidOid(s.uploads[i].oid) && ValidOid(s.uploads[j].oid)
    ensures Temp(c, s.uploads[i]) != Temp(c, s.uploads[j])
    ensures forall oid | ValidOid(oid) :: Temp(c, s.uploads[i]) != ObjectPath(oid)
  {
    var u, v := s.uploads[i], s.uploads[j];
    assert UploadOk(c, s, u) && UploadOk(c, s, v);
    hide ObjectsOk, ReaderOk, UploadsOk, UploadOk, Inv, TempPath, ObjectPath;
    if Temp(c, u) == Temp(c, v) {
      TempPathInjective(u.oid, v.oid, c.pid, u.nonce, v.nonce);
    }
    forall oid | ValidOid(oid)
      ensures Temp(c, u) != ObjectPath(oid)
    {
      TempIsNotObject(u.oid, c.pid, u.nonce, oid);
    }
  }

  /** What the caller of an upload has been told. */
  function Reported(u: Upload): Option<Outcome> {
    match u.phase
    case Finished(outcome) => Some(outcome)
    case Leaked(error, _) => Some(Err(error))
    case _ => None
  }

  /** An upload that reported an error has no temporary file, unless it is a `write` that failed to write
      and left one: exactly then the file is there. */
  lemma ReportedErrorIsClean(c: Config, s: State, id: nat)
    requires Inv(c, s) && id in s.uploads
    requires Reported(s.uploads[id]).Some? && Reported(s.uploads[id]).value.Err?
    ensures ValidOid(s.uploads[id].oid)
    ensures Temp(c, s.uploads[id]) in s.files <==> s.uploads[id].phase.Leaked? && s.uploads[id].phase.left
    ensures s.uploads[id].phase.Leaked? ==> s.uploads[id].whole
  {
    assert UploadOk(c, s, s.uploads[id]);
    hide ObjectsOk, ReaderOk, UploadsOk, Inv, TempPath, ObjectPath;
  }

  /** A failed write leaves a file exactly when it got as far as creating one, or found one there. */
  lemma FailedWriteLeaves(c: Config, s: State, id: nat, outcome: WholeWrite, message: bytes, s': State)
    requires id in s.uploads && ValidOid(s.uploads[id].oid)
    requires s.uploads[id].phase == Reserved && s.uploads[id].whole
    requires outcome == NotCreated || (outcome.Partial? && outcome.n <= |s.uploads[id].fed|)
    requires s' == Step(c, s, WriteWhole(id, outcome, message))
    ensures id in s'.uploads && Reported(s'.uploads[id]) == Some(Err(Storage(message)))
    ensures s'.uploads[id].phase == Leaked(Storage(message), Temp(c, s.uploads[id]) in s'.files)
    ensures Temp(c, s.uploads[id]) in s'.files <==> outcome.Partial? || Temp(c, s.uploads[id]) in s.files
  {
    hide TempPath;
  }

  /** `write` does leave a partial temporary file: a full disk while writing is enough. */
  lemma WriteLeaks(c: Config, s: State, id: nat, oid: bytes, body: bytes, message: bytes)
    requires id !in s.uploads && Admitted(c, oid, Some(body))
    ensures var s' := Run(c, s, [Begin(id, oid, Some(body)), WriteWhole(id, Partial(0), message)]);
      id in s'.uploads && Reported(s'.uploads[id]) == Some(Err(Storage(message)))
      && TempPath(oid, c.pid, s.nonce) in s'.files
  {
    var a, b := Begin(id, oid, Some(body)), WriteWhole(id, Partial(0), message);
    var s1 := Step(c, s, a);
    hide TempPath;
    assert [a, b][1..] == [b];
    assert Run(c, s1, [b]) == Step(c, s1, b) by {
      assert [b][1..] == [];
    }
  }

  /** A published object changes only when an upload of it succeeds, and then holds what was received. */
  lemma OnlySuccessPublishes(c: Config, s: State, a: Action, oid: bytes)
    requires Inv(c, s) && ValidOid(oid)
    ensures var s' := Step(c, s, a);
      || ((ObjectPath(oid) in s.files <==> ObjectPath(oid) in s'.files)
          && (ObjectPath(oid) in s.files ==> s'.files[ObjectPath(oid)] == s.files[ObjectPath(oid)]))
      || (a.Publish? && a.id in s.uploads && s.uploads[a.id].oid == oid
          && Reported(s'.uploads[a.id]) == Some(Ok(()))
          && c.sha(s.uploads[a.id].fed) == oid
          && ObjectPath(oid) in s'.files && s'.files[ObjectPath(oid)] == s.uploads[a.id].fed)
  {
    var s' := Step(c, s, a);
    if CanStep(s, a) && !a.Begin? && !a.Stat? && !a.OpenFile? {
      var u := s.uploads[a.id];
      OwnNonce(c, s, a.id);
      hide UploadOk, Inv, ObjectsOk, ReaderOk, UploadsOk;
      TempIsNotObject(u.oid, c.pid, u.nonce, oid);
      if Renames(c, s, u, a) {
        SyncedFile(c, s, u);
        if oid != u.oid && ObjectPath(oid) == ObjectPath(u.oid) {
          ObjectPathInjective(oid, u.oid);
        }
        hide TempPath, ObjectPath;
      } else {
        hide UploadStep, TempPath, ObjectPath;
        if a.Create? || a.WriteWhole? || a.Disk? || a.Cleanup? {
          FileStepLocal(c, s, a.id, u, a);
        } else {
          MemoryStepLocal(c, s, a.id, u, a);
        }
        SameAfter(c, s, s', a.id, u, oid);
      }
    }
  }

  lemma SyncedFile(c: Config, s: State, u: Upload)
    requires UploadOk(c, s, u) && u.phase == Synced
    ensures Temp(c, u) in s.files && s.files[Temp(c, u)] == u.fed
  {
  }

  lemma SameAfter(c: Config, s: State, s': State, id: nat, u: Upload, oid: bytes)
    requires ValidOid(u.oid) && ValidOid(oid) && StaysLocal(c, s, s', id, u) && Temp(c, u) != ObjectPath(oid)
    ensures ObjectPath(oid) in s.files <==> ObjectPath(oid) in s'.files
    ensures ObjectPath(oid) in s.files ==> s'.files[ObjectPath(oid)] == s.files[ObjectPath(oid)]
  {
    hide UploadOk, TempPath, ObjectPath, SameExcept;
    if s' != s {
      SameAt(s.files, s'.files, Temp(c, u), ObjectPath(oid));
    }
  }

  /** No two byte strings within the limit have this digest. */
  ghost predicate Unique(c: Config, oid: bytes) {
    forall a: bytes, b: bytes | |a| <= c.max && |b| <= c.max && c.sha(a) == oid && c.sha(b) == oid :: a == b
  }

  /** What is published stays published, with the same bytes unless its digest collides. */
  lemma {:induction false} PublishedStays(c: Config, s: State, actions: seq<Action>, oid: bytes)
    requires Inv(c, s) && ValidOid(oid) && ObjectPath(oid) in s.files
    ensures var s' := Run(c, s, actions);
      ObjectPath(oid) in s'.files
      && (Unique(c, oid) ==> s'.files[ObjectPath(oid)] == s.files[ObjectPath(oid)])
    decreases |actions|
  {
    hide Inv, Step, ObjectPath, Unique;
    if actions == [] {
    } else {
      var s1 := Step(c, s, actions[0]);
      StepKeeps(c, s, actions[0]);
      OnlySuccessPublishes(c, s, actions[0], oid);
      SameDigest(c, s, s1, oid);
      PublishedStays(c, s1, actions[1..], oid);
    }
  }

  lemma SameDigest(c: Config, s: State, s': State, oid: bytes)
    requires Inv(c, s) && Inv(c, s') && ValidOid(oid)
    requires ObjectPath(oid) in s.files && ObjectPath(oid) in s'.files
    ensures Unique(c, oid) ==> s'.files[ObjectPath(oid)] == s.files[ObjectPath(oid)]
  {
    hide ObjectPath, UploadsOk, NoncesDiffer, ReadersOk;
  }

  /** The length that `open_stream` declares is the length it streams, even when the object is
      published anew between its two file-system calls. */
  lemma DeclaredLength(c: Config, s: State, rid: nat)
    requires Inv(c, s) && rid in s.readers && s.readers[rid].Opened? && Unique(c, s.readers[rid].oid)
    ensures |s.readers[rid].content| == s.readers[rid].length
  {
    hide ObjectsOk, UploadsOk, NoncesDiffer;
    var r := s.readers[rid];
    assert ReaderOk(c, r);
  }
}
