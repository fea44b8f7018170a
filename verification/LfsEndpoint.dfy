/** The LFS protocol over the store: requests arrive at any time, uploads run in steps between them. */
module LfsEndpoint {
  import opened Wrappers
  import opened Bytes
  import opened LfsStore
  import opened LfsWriter

  datatype Verb = GET | HEAD | PUT | POST | Other

  datatype Target =
    | BatchCall
    | VerifyCall(oid: bytes)
    | DownloadCall(oid: bytes, head: bool)
    | UploadCall(oid: bytes)
    | Refused(status: nat)

  function Below(path: bytes, prefix: bytes): Option<bytes> {
    if prefix <= path then Some(path[|prefix|..]) else None
  }

  /** The object of `objects/{oid}/verify`. */
  function VerifiedObject(path: bytes): Option<bytes> {
    match Below(path, "objects/")
    case None => None
    case Some(rest) => if EndsWith(rest, "/verify") then Some(rest[..|rest| - 7]) else None
  }

  /** The dispatch of `serve`, for a repository that exists. */
  function Dispatch(path: bytes, verb: Verb, write_enabled: bool): Target {
    if path == "objects/batch" && verb == POST then BatchCall
    else if verb == POST && VerifiedObject(path).Some? then VerifyCall(VerifiedObject(path).value)
    else
      match Below(path, "objects/")
      case None => Refused(404)
      case Some(oid) =>
        if !ValidOid(oid) then Refused(400)
        else
          match verb
          case GET => DownloadCall(oid, false)
          case HEAD => DownloadCall(oid, true)
          case PUT => if write_enabled then UploadCall(oid) else Refused(403)
          case _ => Refused(405)
  }

  datatype ObjectRequest = ObjectRequest(oid: bytes, size: nat)

  datatype BatchRequest = BatchRequest(operation: bytes, objects: seq<ObjectRequest>)

  datatype BodyError = TooLarge | Malformed

  /** The actions offered for one object, or the error code reported for it. */
  datatype ObjectResponse =
    | MayDownload(item: ObjectRequest)
    | MayUpload(item: ObjectRequest)
    | Rejected(item: ObjectRequest, code: nat)

  datatype Reply = Plain(status: nat) | BatchReply(objects: seq<ObjectResponse>)

  /** `LfsStore::present`, for a valid object id. */
  predicate Present(files: map<bytes, bytes>, oid: bytes, size: nat)
    requires ValidOid(oid)
  {
    ObjectPath(oid) in files && |files[ObjectPath(oid)]| == size
  }

  function BatchItem(
      files: map<bytes, bytes>, write_enabled: bool, operation: bytes, item: ObjectRequest): ObjectResponse
  {
    if !ValidOid(item.oid) then Rejected(item, 422)
    else if Present(files, item.oid, item.size) then MayDownload(item)
    else if operation == "download" then Rejected(item, 404)
    else if !write_enabled then Rejected(item, 403)
    else MayUpload(item)
  }

  function BatchItems(
      files: map<bytes, bytes>, write_enabled: bool, operation: bytes, objects: seq<ObjectRequest>): seq<ObjectResponse>
  {
    seq(|objects|, i requires 0 <= i < |objects| => BatchItem(files, write_enabled, operation, objects[i]))
  }

  function BatchAnswer(files: map<bytes, bytes>, write_enabled: bool, body: Result<BatchRequest, BodyError>): Reply {
    match body
    case Err(TooLarge) => Plain(413)
    case Err(Malformed) => Plain(400)
    case Ok(request) =>
      if request.operation != "download" && request.operation != "upload" then Plain(400)
      else BatchReply(BatchItems(files, write_enabled, request.operation, request.objects))
  }

  function VerifyAnswer(files: map<bytes, bytes>, oid: bytes, body: Result<ObjectRequest, BodyError>): Reply {
    if !ValidOid(oid) then Plain(400)
    else
      match body
      case Err(TooLarge) => Plain(413)
      case Err(Malformed) => Plain(400)
      case Ok(request) =>
        if request.oid == oid && Present(files, oid, request.size) then Plain(200) else Plain(404)
  }

  /** The reply to an upload that has ended. */
  function UploadReply(outcome: Outcome): Reply {
    match outcome
    case Ok(_) => Plain(200)
    case Err(HashMismatch) => Plain(422)
    case Err(InvalidOid) => Plain(400)
    case Err(Storage(message)) => if message == "object too large" then Plain(413) else Plain(500)
    case Err(_) => Plain(500)
  }

  /* Links. */

  /** The path, below the endpoint, of the links offered in a batch response. */
  function ObjectLink(oid: bytes): bytes {
    "objects/" + oid
  }

  function VerifyLink(oid: bytes): bytes {
    "objects/" + oid + "/verify"
  }

  /** Every link a batch response offers leads to the operation it was offered for. */
  lemma LinksLead(oid: bytes, write_enabled: bool)
    requires ValidOid(oid)
    ensures Dispatch(ObjectLink(oid), GET, write_enabled) == DownloadCall(oid, false)
    ensures Dispatch(ObjectLink(oid), PUT, write_enabled) == if write_enabled then UploadCall(oid) else Refused(403)
    ensures Dispatch(VerifyLink(oid), POST, write_enabled) == VerifyCall(oid)
  {
    assert ObjectLink(oid)[8..] == oid;
    assert VerifyLink(oid)[8..] == oid + "/verify";
    assert (oid + "/verify")[64..] == "/verify";
    assert |VerifyLink(oid)| != |"objects/batch"|;
  }

  /** An answer the client can act on: every action it offers leads to a request that the server accepts,
      a download to an object of the requested size that is there, an upload to one that is missing. */
  predicate Actionable(
      files: map<bytes, bytes>, write_enabled: bool, operation: bytes, item: ObjectRequest, answer: ObjectResponse)
  {
    && answer.item == item
    && match answer
       case MayDownload(_) =>
         && ValidOid(item.oid) && Present(files, item.oid, item.size)
         && Dispatch(ObjectLink(item.oid), GET, write_enabled) == DownloadCall(item.oid, false)
       case MayUpload(_) =>
         && operation == "upload" && ValidOid(item.oid) && !Present(files, item.oid, item.size)
         && Dispatch(ObjectLink(item.oid), PUT, write_enabled) == UploadCall(item.oid)
         && Dispatch(VerifyLink(item.oid), POST, write_enabled) == VerifyCall(item.oid)
       case Rejected(_, code) =>
         && (ValidOid(item.oid) ==> !Present(files, item.oid, item.size))
         && (code == 422 <==> !ValidOid(item.oid))
         && (code == 404 <==> ValidOid(item.oid) && operation == "download")
         && (code == 403 ==> Dispatch(ObjectLink(item.oid), PUT, write_enabled) == Refused(403))
  }

  /** A batch is answered object by object, in order, and every answer is actionable. */
  lemma BatchActionable(files: map<bytes, bytes>, write_enabled: bool, request: BatchRequest)
    requires request.operation == "download" || request.operation == "upload"
    ensures var reply := BatchAnswer(files, write_enabled, Ok(request));
      && reply.BatchReply? && |reply.objects| == |request.objects|
      && forall i | 0 <= i < |request.objects| ::
           Actionable(files, write_enabled, request.operation, request.objects[i], reply.objects[i])
  {
    hide Dispatch, ObjectPath, ObjectLink, VerifyLink;
    forall i | 0 <= i < |request.objects|
      ensures Actionable(files, write_enabled, request.operation, request.objects[i],
                         BatchItem(files, write_enabled, request.operation, request.objects[i]))
    {
      if ValidOid(request.objects[i].oid) {
        LinksLead(request.objects[i].oid, write_enabled);
      }
    }
    hide Actionable, BatchItem;
  }

  /* The answers, by path, verb, body and files alone. */

  /** 64 lower-case hex digits. */
  predicate Sha256Name(oid: bytes) {
    |oid| == 64 && forall c | c in oid :: c in "0123456789abcdef"
  }

  /** A file of this size stands where the object belongs. */
  predicate There(files: map<bytes, bytes>, oid: bytes, size: nat)
    requires |oid| == 64
  {
    var path := oid[..2] + "/" + oid[2..4] + "/" + oid;
    path in files && |files[path]| == size
  }

  lemma NameIsValid(oid: bytes)
    ensures ValidOid(oid) <==> Sha256Name(oid)
  {
    assert forall i | 0 <= i < |oid| :: oid[i] in oid;
    assert forall c: char :: IsLowerHex(c) <==> c in "0123456789abcdef";
    hide IsLowerHex;
  }

  lemma ThereIsPresent(files: map<bytes, bytes>, oid: bytes, size: nat)
    requires ValidOid(oid)
    ensures Present(files, oid, size) <==> There(files, oid, size)
  {
  }

  /** Which of the five possible answers an object gets: uploads and downloads are offered exactly when they
      can be served, and each code stands for one condition. */
  predicate AnsweredFor(
      files: map<bytes, bytes>, write_enabled: bool, operation: bytes, item: ObjectRequest, answer: ObjectResponse)
  {
    var named := Sha256Name(item.oid);
    var there := named && There(files, item.oid, item.size);
    && (answer == MayDownload(item) <==> there)
    && (answer == MayUpload(item) <==> named && !there && operation == "upload" && write_enabled)
    && (answer == Rejected(item, 422) <==> !named)
    && (answer == Rejected(item, 404) <==> named && !there && operation == "download")
    && (answer == Rejected(item, 403) <==> named && !there && operation == "upload" && !write_enabled)
    && answer in {MayDownload(item), MayUpload(item), Rejected(item, 422), Rejected(item, 404), Rejected(item, 403)}
  }

  /** A readable batch for either operation is answered for every object; any other request is refused. */
  lemma BatchAnswered(files: map<bytes, bytes>, write_enabled: bool, body: Result<BatchRequest, BodyError>)
    ensures var reply := BatchAnswer(files, write_enabled, body);
      if body.Ok? && body.value.operation in {"download", "upload"} then
        && reply.BatchReply? && |reply.objects| == |body.value.objects|
        && forall i | 0 <= i < |reply.objects| ::
             AnsweredFor(files, write_enabled, body.value.operation, body.value.objects[i], reply.objects[i])
      else reply == Plain(if body == Err(TooLarge) then 413 else 400)
  {
    hide AnsweredFor, BatchItem;
    if body.Ok? && body.value.operation in {"download", "upload"} {
      forall i | 0 <= i < |body.value.objects|
        ensures AnsweredFor(files, write_enabled, body.value.operation, body.value.objects[i],
                            BatchItem(files, write_enabled, body.value.operation, body.value.objects[i]))
      {
        ItemAnswered(files, write_enabled, body.value.operation, body.value.objects[i]);
      }
    }
  }

  lemma ItemAnswered(files: map<bytes, bytes>, write_enabled: bool, operation: bytes, item: ObjectRequest)
    requires operation in {"download", "upload"}
    ensures AnsweredFor(files, write_enabled, operation, item, BatchItem(files, write_enabled, operation, item))
  {
    NameIsValid(item.oid);
    if ValidOid(item.oid) {
      ThereIsPresent(files, item.oid, item.size);
    }
    hide Present, There, ValidOid, Sha256Name;
  }

  lemma PathParts(path: bytes, oid: bytes)
    ensures Below(path, "objects/") == Some(oid) <==> path == "objects/" + oid
    ensures VerifiedObject(path) == Some(oid) <==> path == "objects/" + oid + "/verify"
    ensures VerifiedObject(path).Some? ==> Below(path, "objects/").Some?
  {
    if VerifiedObject(path).Some? {
      var rest := Below(path, "objects/").value;
      assert path == "objects/" + rest;
      assert rest == rest[..|rest| - 7] + "/verify";
    }
    assert ("objects/" + oid)[8..] == oid;
    assert "objects/" + oid + "/verify" == "objects/" + (oid + "/verify");
    assert ("objects/" + (oid + "/verify"))[8..] == oid + "/verify";
  }

  lemma NoVerb(oid: bytes)
    requires ValidOid(oid)
    ensures oid != "batch" && !EndsWith(oid, "/verify")
  {
    assert IsLowerHex(oid[57]) && oid[57] == oid[57..][0];
  }

  /** Which requests reach which operation. */
  lemma Dispatched(path: bytes, verb: Verb, write_enabled: bool, oid: bytes)
    ensures var target := Dispatch(path, verb, write_enabled);
      && (target == BatchCall <==> path == "objects/batch" && verb == POST)
      && (target == VerifyCall(oid) <==> path == "objects/" + oid + "/verify" && verb == POST)
      && (target == DownloadCall(oid, false) <==> path == "objects/" + oid && Sha256Name(oid) && verb == GET)
      && (target == DownloadCall(oid, true) <==> path == "objects/" + oid && Sha256Name(oid) && verb == HEAD)
      && (target == UploadCall(oid) <==> path == "objects/" + oid && Sha256Name(oid) && verb == PUT && write_enabled)
      && (target == Refused(404) <==> !StartsWith(path, "objects/"))
  {
    NameIsValid(oid);
    PathParts(path, oid);
    PathParts(path, "batch");
    if ValidOid(oid) {
      NoVerb(oid);
    }
    if VerifiedObject(path).Some? {
      PathParts(path, VerifiedObject(path).value);
    }
    hide ValidOid, Sha256Name, VerifiedObject;
  }

  /** Which refusal a path below `objects/` gets that reaches none. */
  lemma DispatchRefuses(oid: bytes, verb: Verb, write_enabled: bool)
    ensures var target := Dispatch("objects/" + oid, verb, write_enabled);
      && (target == Refused(403) <==> Sha256Name(oid) && verb == PUT && !write_enabled)
      && (target == Refused(405) <==> Sha256Name(oid) && verb in {POST, Other})
      && (target == Refused(400) <==>
            !Sha256Name(oid) && !(verb == POST && (oid == "batch" || EndsWith(oid, "/verify"))))
      && (target.Refused? ==> target.status in {400, 403, 405})
  {
    var path := "objects/" + oid;
    NameIsValid(oid);
    PathParts(path, oid);
    if ValidOid(oid) {
      NoVerb(oid);
    }
    assert path == "objects/batch" <==> oid == "batch" by {
      assert path[8..] == oid && "objects/batch"[8..] == "batch";
    }
    hide ValidOid, Sha256Name;
  }

  /** A verify request is confirmed exactly for the object of its path, when it is there with the size asked
      for; an ill-formed name is refused before the body is read. */
  lemma VerifyAnswered(files: map<bytes, bytes>, oid: bytes, body: Result<ObjectRequest, BodyError>)
    ensures var reply := VerifyAnswer(files, oid, body);
      if !Sha256Name(oid) then reply == Plain(400)
      else if body.Ok? then
        && reply in {Plain(200), Plain(404)}
        && (reply == Plain(200) <==> body.value.oid == oid && There(files, oid, body.value.size))
      else reply == Plain(if body == Err(TooLarge) then 413 else 400)
  {
    NameIsValid(oid);
    if ValidOid(oid) && body.Ok? {
      ThereIsPresent(files, oid, body.value.size);
    }
    hide ValidOid, Sha256Name, Present, There;
  }

  /** A download measures the object exactly when a file stands where it belongs; otherwise it is not found. */
  lemma DownloadStarts(c: Config, s: State, rid: nat, oid: bytes)
    requires rid !in s.readers
    ensures var s' := Step(c, s, Stat(rid, oid));
      && (rid in s'.readers <==> Sha256Name(oid) && exists size :: There(s.files, oid, size))
      && (rid in s'.readers ==>
            s'.readers[rid].Statted? && s'.readers[rid].oid == oid && There(s.files, oid, s'.readers[rid].length))
      && s' == s.(readers := s'.readers)
  {
    NameIsValid(oid);
    if ValidOid(oid) {
      assert ObjectPath(oid) == oid[..2] + "/" + oid[2..4] + "/" + oid;
      if ObjectPath(oid) in s.files {
        assert There(s.files, oid, |s.files[ObjectPath(oid)]|);
      }
    }
    hide ValidOid, Sha256Name;
  }

  /** Each outcome of an upload has its own status. */
  lemma UploadReplies(outcome: Outcome)
    ensures var reply := UploadReply(outcome);
      && (reply == Plain(200) <==> outcome.Ok?)
      && (reply == Plain(400) <==> outcome == Err(InvalidOid))
      && (reply == Plain(422) <==> outcome == Err(HashMismatch))
      && (reply == Plain(413) <==> outcome == Err(Storage("object too large")))
      && reply in {Plain(200), Plain(400), Plain(413), Plain(422), Plain(500)}
  {
  }

  /* Uploads. */

  function Bodies(reader: seq<ReadResult>): bytes {
    if reader == [] then []
    else (if reader[0].Chunk? then reader[0].data else []) + Bodies(reader[1..])
  }

  predicate OnlyChunks(reader: seq<ReadResult>) {
    forall i | 0 <= i < |reader| :: reader[i].Chunk? && reader[i].data != []
  }

  const NO_FAULTS := Faults(None, None, None, None, None)

  /** Where nothing fails, an upload is answered by its size and its digest alone, however it is cut. */
  lemma UploadAnswered(c: Config, oid: bytes, reader: seq<ReadResult>)
    requires ValidOid(oid) && OnlyChunks(reader)
    ensures var outcome := StreamOutcome(c, oid, reader, NO_FAULTS);
      UploadReply(if outcome.Ok? then Ok(()) else Err(outcome.error))
      == if |Bodies(reader)| > c.max then Plain(413)
         else if c.sha(Bodies(reader)) != oid then Plain(422)
         else Plain(200)
  {
    GatheredBodies(c.max, reader, [], 0);
    assert [] + Bodies(reader) == Bodies(reader);
    hide Gathered, Bodies;
  }

  /** No failing call reports the message that stands for the limit. */
  predicate Told(failure: Option<bytes>) {
    failure.Some? ==> failure.value != "object too large"
  }

  predicate FaultsTold(faults: Faults) {
    && Told(faults.directories) && Told(faults.create) && Told(faults.flush) && Told(faults.rename)
    && (faults.write.Some? ==> faults.write.value.1 != "object too large")
  }

  /** An object within the limit is refused by a failing call: before its digest is looked at by all but the
      rename, which only a right digest reaches. */
  lemma UploadFaulted(c: Config, oid: bytes, reader: seq<ReadResult>, faults: Faults)
    requires ValidOid(oid) && OnlyChunks(reader) && |Bodies(reader)| <= c.max && FaultsTold(faults)
    ensures var outcome := StreamOutcome(c, oid, reader, faults);
      UploadReply(if outcome.Ok? then Ok(()) else Err(outcome.error))
      == if faults.directories.Some? || faults.create.Some? || faults.flush.Some?
            || (faults.write.Some? && faults.write.value.0 < |reader|)
         then Plain(500)
         else if c.sha(Bodies(reader)) != oid then Plain(422)
         else if faults.rename.Some? then Plain(500)
         else Plain(200)
  {
    GatheredFaulted(c.max, reader, [], 0, faults.write);
    assert [] + Bodies(reader) == Bodies(reader);
    hide Gathered, Bodies, OnlyChunks;
  }

  /** A reader that breaks off within the limit is a storage fault, whatever has arrived. */
  lemma UploadBroken(c: Config, oid: bytes, chunks: seq<ReadResult>, message: bytes, rest: seq<ReadResult>)
    requires ValidOid(oid) && OnlyChunks(chunks) && |Bodies(chunks)| <= c.max && Told(Some(message))
    ensures StreamOutcome(c, oid, chunks + ([ReadError(message)] + rest), NO_FAULTS) == Err(Storage(message))
    ensures UploadReply(Err(Storage(message))) == Plain(500)
  {
    GatheredBroken(c.max, chunks, message, rest, [], 0);
    assert [] + Bodies(chunks) == Bodies(chunks);
    hide Gathered, Bodies, OnlyChunks;
  }

  lemma {:induction false} GatheredBroken(
      max: nat, chunks: seq<ReadResult>, message: bytes, rest: seq<ReadResult>, fed: bytes, i: nat)
    requires OnlyChunks(chunks) && |fed + Bodies(chunks)| <= max
    ensures Gathered(max, chunks + ([ReadError(message)] + rest), fed, i, None) == Err(Storage(message))
    decreases |chunks|
  {
    var reader := chunks + ([ReadError(message)] + rest);
    if chunks == [] {
      assert reader == [ReadError(message)] + rest;
    } else {
      var data := chunks[0].data;
      assert reader[1..] == chunks[1..] + ([ReadError(message)] + rest);
      assert fed + data + Bodies(chunks[1..]) == fed + (data + Bodies(chunks[1..]));
      GatheredBroken(max, chunks[1..], message, rest, fed + data, i + 1);
    }
  }

  /** What `write` answers for a whole body: the object is stored exactly when it is within the limit, hashes
      to its name and no call fails. */
  lemma WriteAnswered(c: Config, oid: bytes, body: bytes, faults: Faults)
    requires FaultsTold(faults)
    ensures var outcome := WriteOutcome(c, oid, body, faults);
      var sound := |body| <= c.max && Sha256Name(oid) && c.sha(body) == oid;
      && (outcome.Ok? <==> sound && faults.directories == None && faults.write == None && faults.rename == None)
      && (outcome == Err(TOO_LARGE) <==> |body| > c.max)
      && (outcome == Err(HashMismatch) <==> |body| <= c.max && !sound)
      && (outcome.Ok? || outcome.error.Storage? || outcome.error.HashMismatch?)
  {
    NameIsValid(oid);
    hide ValidOid, Sha256Name;
  }

  lemma {:induction false} GatheredFaulted(
      max: nat, reader: seq<ReadResult>, fed: bytes, i: nat, write: Option<(nat, bytes)>)
    requires OnlyChunks(reader) && |fed + Bodies(reader)| <= max
    ensures Gathered(max, reader, fed, i, write)
         == if write.Some? && i <= write.value.0 < i + |reader| then Err(Storage(write.value.1))
            else Ok(fed + Bodies(reader))
    decreases |reader|
  {
    if reader == [] {
      assert fed + [] == fed;
    } else {
      var data := reader[0].data;
      assert fed + data + Bodies(reader[1..]) == fed + (data + Bodies(reader[1..]));
      GatheredFaulted(max, reader[1..], fed + data, i + 1, write);
    }
  }

  lemma {:induction false} GatheredBodies(max: nat, reader: seq<ReadResult>, fed: bytes, i: nat)
    requires OnlyChunks(reader) && |fed| <= max
    ensures Gathered(max, reader, fed, i, None)
         == if |fed + Bodies(reader)| > max then Err(TOO_LARGE) else Ok(fed + Bodies(reader))
    decreases |reader|
  {
    if reader == [] {
      assert fed + [] == fed;
    } else {
      var data := reader[0].data;
      assert fed + data + Bodies(reader[1..]) == fed + (data + Bodies(reader[1..]));
      if |fed| + |data| <= max {
        GatheredBodies(max, reader[1..], fed + data, i + 1);
      }
    }
  }

  /* Runs of the server. */

  /** A request arrives, or a pending upload or download takes a step. */
  datatype Event = Arrives(id: nat, path: bytes, verb: Verb) | Continues(action: Action)

  /** The step of the store that an event causes, if any. */
  function ActionOf(e: Event, write_enabled: bool): Option<Action> {
    match e
    case Arrives(id, path, verb) =>
      (match Dispatch(path, verb, write_enabled)
       case UploadCall(oid) => Some(Begin(id, oid, None))
       case DownloadCall(oid, _) => Some(Stat(id, oid))
       case _ => None)
    case Continues(a) => if a.Begin? || a.Stat? then None else Some(a)
  }

  function Serve(c: Config, s: State, events: seq<Event>, write_enabled: bool): State
    decreases |events|
  {
    if events == [] then s
    else
      var s' := match ActionOf(events[0], write_enabled)
        case None => s
        case Some(a) => Step(c, s, a);
      Serve(c, s', events[1..], write_enabled)
  }

  function Actions(events: seq<Event>, write_enabled: bool): seq<Action>
    decreases |events|
  {
    if events == [] then []
    else
      match ActionOf(events[0], write_enabled)
      case None => Actions(events[1..], write_enabled)
      case Some(a) => [a] + Actions(events[1..], write_enabled)
  }

  /** An upload begins and a download is measured exactly when its request reaches that operation; no other
      request touches the store. */
  lemma RequestBegins(id: nat, path: bytes, verb: Verb, write_enabled: bool, oid: bytes)
    ensures var action := ActionOf(Arrives(id, path, verb), write_enabled);
      && (action == Some(Begin(id, oid, None)) <==>
            path == "objects/" + oid && Sha256Name(oid) && verb == PUT && write_enabled)
      && (action == Some(Stat(id, oid)) <==>
            path == "objects/" + oid && Sha256Name(oid) && verb in {GET, HEAD})
      && (action.Some? ==> action.value.Stat? || (action.value.Begin? && action.value.body == None))
  {
    Dispatched(path, verb, write_enabled, oid);
    var target := Dispatch(path, verb, write_enabled);
    if target.DownloadCall? {
      Dispatched(path, verb, write_enabled, target.oid);
    }
    hide Dispatch, Sha256Name;
  }

  /** Serving requests is a run of the store. */
  lemma {:induction false} ServeIsRun(c: Config, s: State, events: seq<Event>, write_enabled: bool)
    ensures Serve(c, s, events, write_enabled) == Run(c, s, Actions(events, write_enabled))
    decreases |events|
  {
    hide Step, ActionOf;
    if events == [] {
    } else {
      var rest := Actions(events[1..], write_enabled);
      match ActionOf(events[0], write_enabled)
      case None => ServeIsRun(c, s, events[1..], write_enabled);
      case Some(a) =>
        ServeIsRun(c, Step(c, s, a), events[1..], write_enabled);
        assert ([a] + rest)[1..] == rest;
    }
  }

  /** With uploads disabled no run of requests changes the store. */
  lemma {:induction false} DisabledNeverWrites(c: Config, s: State, events: seq<Event>)
    requires s.uploads == map[]
    ensures Serve(c, s, events, false).files == s.files && Serve(c, s, events, false).uploads == map[]
    decreases |events|
  {
    if events == [] {
    } else {
      var a := ActionOf(events[0], false);
      assert a.Some? ==> !a.value.Begin?;
      hide ActionOf, UploadStep;
      if a == None {
        DisabledNeverWrites(c, s, events[1..]);
      } else {
        DisabledNeverWrites(c, Step(c, s, a.value), events[1..]);
      }
    }
  }

  /** The store holds `content` under `oid`. */
  predicate Holds(files: map<bytes, bytes>, oid: bytes, content: bytes)
    requires ValidOid(oid)
  {
    ObjectPath(oid) in files && files[ObjectPath(oid)] == content
  }

  /** Once an upload has succeeded, its object is held at the end of every later run of requests. */
  lemma UploadedStays(c: Config, s: State, id: nat, events: seq<Event>, write_enabled: bool)
    requires Inv(c, s) && id in s.uploads && Reported(s.uploads[id]) == Some(Ok(())) && Unique(c, s.uploads[id].oid)
    ensures ValidOid(s.uploads[id].oid)
    ensures Holds(Serve(c, s, events, write_enabled).files, s.uploads[id].oid, s.uploads[id].fed)
    ensures Inv(c, Serve(c, s, events, write_enabled))
  {
    var u := s.uploads[id];
    assert UploadOk(c, s, u);
    assert c.sha(s.files[ObjectPath(u.oid)]) == u.oid;
    assert s.files[ObjectPath(u.oid)] == u.fed;
    hide Inv, ObjectPath, TempPath, Unique, UploadOk, Run, Serve, Actions;
    ServeIsRun(c, s, events, write_enabled);
    PublishedStays(c, s, Actions(events, write_enabled), u.oid);
    RunKeeps(c, s, Actions(events, write_enabled));
  }

  /** What a held object means for the protocol: it is offered for download and never asked for again,
      and it is verified for exactly its own size. */
  lemma HeldIsServed(
      files: map<bytes, bytes>, oid: bytes, content: bytes, size: nat, operation: bytes, write_enabled: bool)
    requires ValidOid(oid) && Holds(files, oid, content)
    ensures BatchItem(files, write_enabled, operation, ObjectRequest(oid, |content|))
         == MayDownload(ObjectRequest(oid, |content|))
    ensures VerifyAnswer(files, oid, Ok(ObjectRequest(oid, size))) == Plain(200) <==> size == |content|
  {
    hide ObjectPath;
  }

  /** Whether an event is a step of this download. */
  predicate Concerns(e: Event, rid: nat) {
    (e.Arrives? && e.id == rid) || (e.Continues? && e.action.OpenFile? && e.action.rid == rid)
  }

  /** A download that has measured the object opens it unchanged, whatever happens in between, and
      streams as many bytes as it declared. */
  lemma DownloadStreams(
      c: Config, s: State, rid: nat, oid: bytes, content: bytes, events: seq<Event>, write_enabled: bool)
    requires Inv(c, s) && ValidOid(oid) && Unique(c, oid) && Holds(s.files, oid, content) && rid !in s.readers
    requires forall e | e in events :: !Concerns(e, rid)
    ensures var measured := Step(c, s, Stat(rid, oid));
      var later := Serve(c, measured, events, write_enabled);
      var final := Step(c, later, OpenFile(rid));
      rid in final.readers && final.readers[rid] == Opened(oid, |content|, content)
  {
    var measured := Step(c, s, Stat(rid, oid));
    assert measured.files == s.files && rid in measured.readers && measured.readers[rid] == Statted(oid, |content|);
    var later := Serve(c, measured, events, write_enabled);
    StepKeeps(c, s, Stat(rid, oid));
    ServeIsRun(c, measured, events, write_enabled);
    assert ObjectPath(oid) in s.files;
    ReaderStays(c, measured, rid, events, write_enabled);
    hide Inv, ObjectPath, Unique, Run, Serve, Actions, UploadStep;
    PublishedStays(c, measured, Actions(events, write_enabled), oid);
  }

  lemma {:induction false} ReaderStays(c: Config, s: State, rid: nat, events: seq<Event>, write_enabled: bool)
    requires rid in s.readers && forall e | e in events :: !Concerns(e, rid)
    ensures var s' := Serve(c, s, events, write_enabled); rid in s'.readers && s'.readers[rid] == s.readers[rid]
    decreases |events|
  {
    if events == [] {
    } else {
      assert !Concerns(events[0], rid);
      var a := ActionOf(events[0], write_enabled);
      assert a.Some? ==> !(a.value.Stat? || a.value.OpenFile?) || a.value.rid != rid;
      hide ActionOf, Concerns;
      if a == None {
        ReaderStays(c, s, rid, events[1..], write_enabled);
      } else {
        StepReaders(c, s, rid, a.value);
        hide Step;
        ReaderStays(c, Step(c, s, a.value), rid, events[1..], write_enabled);
      }
    }
  }

  lemma StepReaders(c: Config, s: State, rid: nat, a: Action)
    requires rid in s.readers && ((a.Stat? || a.OpenFile?) ==> a.rid != rid)
    ensures var s' := Step(c, s, a); rid in s'.readers && s'.readers[rid] == s.readers[rid]
  {
    if CanStep(s, a) && !a.Begin? && !a.Stat? && !a.OpenFile? {
      UploadKeepsReaders(c, s, a.id, s.uploads[a.id], a);
    }
    hide UploadStep, ObjectPath;
  }

  lemma UploadKeepsReaders(c: Config, s: State, id: nat, u: Upload, a: Action)
    requires ValidOid(u.oid)
    ensures UploadStep(c, s, id, u, a).readers == s.readers
  {
    hide TempPath, ObjectPath;
  }

  /** The protocol end to end: once an upload has been accepted, then after any run of requests a batch
      offers its object for download, a verify request confirms its size, and a new download `rid`
      declares and streams exactly the uploaded bytes, whatever runs between its two file-system calls. */
  lemma UploadedIsServed(
      c: Config, s: State, id: nat, before: seq<Event>, rid: nat, during: seq<Event>, operation: bytes,
      write_enabled: bool)
    requires Inv(c, s) && id in s.uploads && Reported(s.uploads[id]) == Some(Ok(())) && Unique(c, s.uploads[id].oid)
    ensures ValidOid(s.uploads[id].oid)
    ensures var oid, content := s.uploads[id].oid, s.uploads[id].fed;
      var now := Serve(c, s, before, write_enabled);
      var item := ObjectRequest(oid, |content|);
      var streamed := Step(c, Serve(c, Step(c, now, Stat(rid, oid)), during, write_enabled), OpenFile(rid));
      && BatchItem(now.files, write_enabled, operation, item) == MayDownload(item)
      && VerifyAnswer(now.files, oid, Ok(item)) == Plain(200)
      && (rid !in now.readers && (forall e | e in during :: !Concerns(e, rid)) ==>
            rid in streamed.readers && streamed.readers[rid] == Opened(oid, |content|, content))
  {
    hide *;
    UploadedStays(c, s, id, before, write_enabled);
    var oid, content := s.uploads[id].oid, s.uploads[id].fed;
    var now := Serve(c, s, before, write_enabled);
    HeldIsServed(now.files, oid, content, |content|, operation, write_enabled);
    if rid !in now.readers && forall e | e in during :: !Concerns(e, rid) {
      DownloadStreams(c, now, rid, oid, content, during, write_enabled);
    }
  }
}
