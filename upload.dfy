/**
  The `/upload/<session_id>` endpoint: the request checks made before any
  archive is opened, then the upload itself for the session.
*/
module Upload {
  import opened Wrappers
  import opened PyStr
  import opened Sessions
  import opened Merge

  /**
    The `file` part of a multipart request: the name the client gave it and
    the entries of the archive it holds (`None` when the bytes are not a ZIP
    archive).
  */
  datatype UploadedFile = UploadedFile(filename: string, archive: Option<seq<Entry>>)

  /**
    The request checks, in the order the endpoint makes them: a file part
    must be present, it must have a name, and the name must end in ".zip".
    `None` when the upload may go ahead, otherwise the message of the first
    check that fails.
  */
  function Validate(file: Option<UploadedFile>): (error: Option<string>)
    ensures error.None? <==> file.Some? && EndsWith(file.value.filename, ".zip")
    ensures file.None? ==> error == Some("No file part in request")
    ensures file.Some? && file.value.filename == "" ==> error == Some("No file selected")
    ensures file.Some? && file.value.filename != "" && !EndsWith(file.value.filename, ".zip") ==>
      error == Some("Only ZIP files are allowed")
  {
    if file.None? then Some("No file part in request")
    else if file.value.filename == "" then Some("No file selected")
    else if !EndsWith(file.value.filename, ".zip") then Some("Only ZIP files are allowed")
    else None
  }


  /**
    The endpoint: a request that fails a check gets a 400 with that check's
    message and leaves every queue as it was; one that passes is handed to
    the upload for that session under the name the client gave.
  */
  method Upload(registry: Registry, sessionId: string, file: Option<UploadedFile>) returns (resp: Response)
    requires registry.Valid()
    modifies registry, registry.queues.Values
    ensures registry.Valid()
    ensures Validate(file).Some? ==>
      resp == Error(400, Validate(file).value) && registry.queues == old(registry.queues)
    ensures Validate(file).Some? ==>
      forall s :: s in old(registry.queues) ==> registry.queues[s].items == old(registry.queues[s].items)
    ensures Validate(file).None? ==>
      var f := file.value;
      && sessionId in registry.queues
      && (sessionId in old(registry.queues) ==> registry.queues == old(registry.queues))
      && (sessionId !in old(registry.queues) ==>
            registry.queues == old(registry.queues)[sessionId := registry.queues[sessionId]])
      && resp == Process(f.archive, f.filename).response
      && registry.queues[sessionId].items
         == (if sessionId in old(registry.queues) then old(registry.queues[sessionId].items) else [])
            + Process(f.archive, f.filename).events
      && (forall s :: s in old(registry.queues) && s != sessionId ==>
            registry.queues[s].items == old(registry.queues[s].items))
  {
    if file.None? {
      return Error(400, "No file part in request");
    }
    var f := file.value;
    if f.filename == "" {
      return Error(400, "No file selected");
    }
    if !EndsWith(f.filename, ".zip") {
      return Error(400, "Only ZIP files are allowed");
    }
    resp := UploadZip(registry, sessionId, f.filename, f.archive);
  }
}
