/** What the upload handler and the five `FileView` calls do to the data
    directory, as functions from the old directory to the response and the
    new directory. The classes in module Server run the same steps in place
    and are proved equal to these functions.
 */
module Api {
  import opened Objects
  import opened Ids
  import opened Chunks

  /** The form fields `upload` requires, in the order it checks them. */
  const FIELDS: seq<string> := ["cryptofile", "metadata", "deletepassword"]

  /** The WSGI variable holding the `X-Forwarded-For` header. */
  const FORWARDED_FOR: string := "HTTP_X_FORWARDED_FOR"

  /** The parts of an upload request the handler looks at. */
  datatype UploadRequest = UploadRequest(
    form: map<string, string>,
    environ: map<string, string>,
    remoteAddr: string)

  function Get(m: map<string, string>, key: string): (r: Option<string>)
    ensures r.Some? <==> key in m
    ensures r.Some? ==> r.value == m[key]
  {
    if key in m then Some(m[key]) else None
  }

  /** The first of `fields` that `form` lacks, if any. */
  function FirstMissing(form: map<string, string>, fields: seq<string>): (r: Option<string>)
    ensures r.None? <==> forall i | 0 <= i < |fields| :: fields[i] in form
    ensures r.Some? ==> r.value !in form && r.value in fields
  {
    if fields == [] then None
    else if fields[0] !in form then Some(fields[0])
    else
      assert forall i | 1 <= i < |fields| :: fields[i] == fields[1..][i - 1];
      FirstMissing(form, fields[1..])
  }

  /** The field reported is the first missing one in the checking order. */
  lemma {:induction false} FirstMissingAt(form: map<string, string>, fields: seq<string>, i: nat)
    requires i < |fields| && fields[i] !in form
    requires forall j | 0 <= j < i :: fields[j] in form
    ensures FirstMissing(form, fields) == Some(fields[i])
  {
    if i > 0 {
      assert forall j | 0 <= j < i - 1 :: fields[1..][j] == fields[j + 1];
      FirstMissingAt(form, fields[1..], i - 1);
    }
  }

  /** The recorded uploader address: the forwarded-for header when the
      request has one, else the peer address. */
  function ClientIp(req: UploadRequest): (ip: string)
    ensures FORWARDED_FOR in req.environ ==> ip == req.environ[FORWARDED_FOR]
    ensures FORWARDED_FOR !in req.environ ==> ip == req.remoteAddr
  {
    if FORWARDED_FOR in req.environ then req.environ[FORWARDED_FOR] else req.remoteAddr
  }

  predicate HasFields(form: map<string, string>) {
    "cryptofile" in form && "metadata" in form && "deletepassword" in form
  }

  /** The field check passes exactly when the three fields are present. */
  lemma NoneMissingIffHasFields(form: map<string, string>)
    ensures FirstMissing(form, FIELDS).None? <==> HasFields(form)
  {
    if FirstMissing(form, FIELDS).None? {
      assert FIELDS[0] in form && FIELDS[1] in form && FIELDS[2] in form;
    }
    if HasFields(form) {
      forall i | 0 <= i < |FIELDS| ensures FIELDS[i] in form {
        assert FIELDS[i] in {"cryptofile", "metadata", "deletepassword"};
      }
    }
  }

  /** The complete container an upload of `req` writes. */
  function NewObject(req: UploadRequest): Container
    requires HasFields(req.form)
  {
    map[CryptoDat := Blob(req.form["cryptofile"]),
        MetadataDat := Blob(req.form["metadata"]),
        ServerDataJson := Record(ServerRecord(req.form["deletepassword"], ClientIp(req)))]
  }

  function ValidationError(field: string): Response {
    Response(400, UploadStatus(FieldMissing(field), ""))
  }

  /** `write_file`'s answer when writing fails; Flask's default status applies. */
  function WriteError(part: Part): Response {
    Response(200, UploadStatus(UnableToWrite(part.Name()), ""))
  }

  /** `write_file`: the new directory, or `None` when opening or writing raised. */
  function WriteFile(store: Store, id: string, part: Part, content: Content, fails: bool): (r: Option<Store>)
    ensures r.Some? <==> !fails && id in store
    ensures r.Some? ==> r.value.Keys == store.Keys && r.value[id] == store[id][part := content]
    ensures r.Some? ==> forall other | other in store && other != id :: r.value[other] == store[other]
  {
    if fails || id !in store then None else Some(store[id := store[id][part := content]])
  }

  /** `upload`: check the fields, allocate an id, create the container, then
      write the three parts in order, stopping at the first failed write.
      `failing` names the parts whose write raises. */
  function Upload(store: Store, req: UploadRequest, draws: seq<UuidHex>, failing: set<Part>): (r: (Response, Store))
    ensures r.0.code == 400 <==> FirstMissing(req.form, FIELDS).Some?
    ensures r.0.code == 500 <==> FirstMissing(req.form, FIELDS).None? && UniqueId(store.Keys, draws).None?
    ensures r.0.code != 200 ==> r.1 == store
  {
    match FirstMissing(req.form, FIELDS)
    case Some(f) => (ValidationError(f), store)
    case None =>
      NoneMissingIffHasFields(req.form);
      match UniqueId(store.Keys, draws)
      case None => (Response(500, InternalError), store)
      case Some(id) =>
        var s0 := store[id := map[]];
        var r1 := WriteFile(s0, id, CryptoDat, Blob(req.form["cryptofile"]), CryptoDat in failing);
        if r1.None? then (WriteError(CryptoDat), s0) else
        var r2 := WriteFile(r1.value, id, MetadataDat, Blob(req.form["metadata"]), MetadataDat in failing);
        if r2.None? then (WriteError(MetadataDat), r1.value) else
        var record := ServerRecord(req.form["deletepassword"], ClientIp(req));
        var r3 := WriteFile(r2.value, id, ServerDataJson, Record(record), ServerDataJson in failing);
        if r3.None? then (WriteError(ServerDataJson), r2.value) else
        (Response(200, UploadStatus(Ok, id)), r3.value)
  }

  /** The stream `cryptofile` or `metadata` answers with; reading a part
      that is not there raises. */
  function ReadPart(store: Store, id: string, part: Part): (r: Response)
    ensures r.code == 200 <==> id in store && part in store[id] && store[id][part].Blob?
    ensures r.code == 200 ==> r.body.Stream?
    ensures r.code != 200 ==> r == Response(500, InternalError)
  {
    if id in store && part in store[id] && store[id][part].Blob?
    then Response(200, Stream(ChunksOf(store[id][part].text, CHUNK_SIZE)))
    else Response(500, InternalError)
  }

  /** The parsed `serverdata.json` of a container, if it has one. */
  function ServerData(store: Store, id: string): (r: Option<ServerRecord>)
    ensures r.Some? <==> id in store && ServerDataJson in store[id] && store[id][ServerDataJson].Record?
    ensures r.Some? ==> store[id][ServerDataJson] == Record(r.value)
  {
    if id in store && ServerDataJson in store[id] && store[id][ServerDataJson].Record?
    then Some(store[id][ServerDataJson].record)
    else None
  }

  /** `ip`: the recorded uploader address, with no password check. */
  function Ip(store: Store, id: string): (r: Response)
    ensures r.code == 200 <==> ServerData(store, id).Some?
    ensures r.code == 200 ==> r.body == UploadIp(id, store[id][ServerDataJson].record.clientip)
    ensures r.code != 200 ==> r == Response(500, InternalError)
  {
    match ServerData(store, id)
    case None => Response(500, InternalError)
    case Some(record) => Response(200, UploadIp(id, record.clientip))
  }

  /** `os.unlink` of each part in turn; the flag is false when a part was
      missing, in which case the later parts are left alone. */
  function UnlinkAll(c: Container, parts: seq<Part>): (r: (Container, bool))
    ensures r.0.Keys <= c.Keys
    ensures forall p | p in r.0 :: r.0[p] == c[p]
    ensures r.1 ==> r.0.Keys == c.Keys - set p | p in parts
    ensures !r.1 ==> exists i | 0 <= i < |parts| :: parts[i] !in c || parts[i] in parts[..i]
  {
    if parts == [] then (c, true)
    else if parts[0] !in c then (c, false)
    else
      var r := UnlinkAll(c - {parts[0]}, parts[1..]);
      assert !r.1 ==> exists i | 0 <= i < |parts| :: parts[i] !in c || parts[i] in parts[..i] by {
        if !r.1 {
          var k :| 0 <= k < |parts[1..]| && (parts[1..][k] !in c - {parts[0]} || parts[1..][k] in parts[1..][..k]);
          assert parts[k + 1] == parts[1..][k];
          assert parts[1..][..k] == parts[1..k + 1];
        }
      }
      r
  }

  /** Every listed part is present and listed once, so each unlink in turn
      finds its file. */
  predicate Unlinkable(c: Container, parts: seq<Part>) {
    forall i | 0 <= i < |parts| :: parts[i] in c && parts[i] !in parts[..i]
  }

  lemma UnlinkableCons(c: Container, parts: seq<Part>)
    requires parts != []
    ensures Unlinkable(c, parts) <==> parts[0] in c && Unlinkable(c - {parts[0]}, parts[1..])
  {
    forall i | 1 <= i < |parts|
      ensures (parts[i] in c && parts[i] !in parts[..i])
          <==> (parts[1..][i - 1] in c - {parts[0]} && parts[1..][i - 1] !in parts[1..][..i - 1])
    {
      assert parts[..i] == [parts[0]] + parts[1..][..i - 1];
    }
    if parts[0] in c && Unlinkable(c - {parts[0]}, parts[1..]) {
      forall i | 0 <= i < |parts| ensures parts[i] in c && parts[i] !in parts[..i] {
        if i > 0 {
          assert parts[1..][i - 1] in c - {parts[0]} && parts[1..][i - 1] !in parts[1..][..i - 1];
        }
      }
    }
  }

  /** The names listed in `parts`. */
  function Listed(parts: seq<Part>): (r: set<Part>)
    ensures forall p :: p in r <==> p in parts
  {
    set p | p in parts
  }

  lemma ListedCons(parts: seq<Part>)
    requires parts != []
    ensures Listed(parts) == {parts[0]} + Listed(parts[1..])
  {
    assert parts == [parts[0]] + parts[1..];
  }

  /** The unlink loop succeeds exactly when every part can be unlinked in
      turn, and then it has removed all of them. */
  lemma {:induction false} UnlinkAllSucceeds(c: Container, parts: seq<Part>)
    ensures UnlinkAll(c, parts).1 <==> Unlinkable(c, parts)
    ensures UnlinkAll(c, parts).1 ==> UnlinkAll(c, parts).0 == c - Listed(parts)
  {
    if parts == [] {
      assert c - Listed(parts) == c;
    } else if parts[0] in c {
      var c1 := c - {parts[0]};
      UnlinkAllSucceeds(c1, parts[1..]);
      UnlinkableCons(c, parts);
      ListedCons(parts);
      assert UnlinkAll(c, parts) == UnlinkAll(c1, parts[1..]);
      assert c1 - Listed(parts[1..]) == c - Listed(parts);
    }
  }

  /** The first part that cannot be unlinked, seen from the list with its
      head already removed, is one position later in the whole list. */
  lemma UnlinkStopShift(c: Container, parts: seq<Part>, k: nat)
    requires parts != [] && parts[0] in c && k < |parts| - 1
    requires Unlinkable(c - {parts[0]}, parts[1..][..k])
    requires parts[1..][k] !in c - {parts[0]} || parts[1..][k] in parts[1..][..k]
    ensures Unlinkable(c, parts[..k + 1])
    ensures parts[k + 1] !in c || parts[k + 1] in parts[..k + 1]
    ensures c - {parts[0]} - Listed(parts[1..][..k]) == c - Listed(parts[..k + 1])
  {
    var pre := parts[..k + 1];
    assert pre[0] == parts[0] && pre[1..] == parts[1..][..k];
    UnlinkableCons(c, pre);
    ListedCons(pre);
    assert pre == [parts[0]] + parts[1..][..k];
  }

  /** When the unlink loop fails it stops at the first part it cannot
      unlink, having removed the parts before it and kept the rest. */
  lemma {:induction false} UnlinkAllStops(c: Container, parts: seq<Part>)
    requires !UnlinkAll(c, parts).1
    ensures exists i | 0 <= i < |parts| ::
              && Unlinkable(c, parts[..i])
              && (parts[i] !in c || parts[i] in parts[..i])
              && UnlinkAll(c, parts).0 == c - Listed(parts[..i])
  {
    if parts[0] !in c {
      assert parts[..0] == [];
      assert c - Listed(parts[..0]) == c;
      assert Unlinkable(c, parts[..0]);
    } else {
      var c1 := c - {parts[0]};
      assert UnlinkAll(c, parts) == UnlinkAll(c1, parts[1..]);
      UnlinkAllStops(c1, parts[1..]);
      var k :| 0 <= k < |parts[1..]|
        && Unlinkable(c1, parts[1..][..k])
        && (parts[1..][k] !in c1 || parts[1..][k] in parts[1..][..k])
        && UnlinkAll(c1, parts[1..]).0 == c1 - Listed(parts[1..][..k]);
      UnlinkStopShift(c, parts, k);
    }
  }

  /** `delete`: compare the supplied password with the stored one, then
      unlink the parts and remove the container. */
  function Delete(store: Store, id: string, password: Option<string>): (r: (Response, Store))
    ensures r.0.code == 401 <==> ServerData(store, id).Some? && password != Some(ServerData(store, id).value.deletepassword)
    ensures r.0.code == 200 ==>
              ServerData(store, id).Some? && password == Some(ServerData(store, id).value.deletepassword)
              && r.1 == store - {id}
    ensures r.0.code != 200 ==> r.1.Keys == store.Keys
    ensures r.0.code == 401 ==> r.1 == store
  {
    match ServerData(store, id)
    case None => (Response(500, InternalError), store)
    case Some(record) =>
      if password != Some(record.deletepassword) then (Response(401, Deletion(id, false)), store)
      else
        var (c, ok) := UnlinkAll(store[id], UNLINK_ORDER);
        // `os.rmdir` only removes an empty directory
        if ok && c == map[] then (Response(200, Deletion(id, true)), store - {id})
        else (Response(500, InternalError), store[id := c])
  }

  /** The operation-specific part of `FileView`, reached once the container exists. */
  function Operation(store: Store, call: ApiCall, id: string, password: Option<string>): (r: (Response, Store))
    ensures !call.Delete? ==> r.1 == store
    ensures call.Exists? ==> r.0 == Response(200, Existence(id, true))
  {
    match call
    case Exists => (Response(200, Existence(id, true)), store)
    case CryptoFile => (ReadPart(store, id, CryptoDat), store)
    case Metadata => (ReadPart(store, id, MetadataDat), store)
    case Delete => Delete(store, id, password)
    case Ip => (Ip(store, id), store)
  }

  /** `FileView.dispatch_request`: the shared guard, then the call. */
  function Dispatch(store: Store, call: ApiCall, args: map<string, string>): (r: (Response, Store))
    ensures r.0.code == 400 <==> "fileid" !in args || args["fileid"] == ""
    ensures r.0.code == 404 <==> "fileid" in args && args["fileid"] != "" && args["fileid"] !in store
    ensures r.1 != store ==> call.Delete? && "fileid" in args && args["fileid"] in store
  {
    var fileid := Get(args, "fileid");
    if fileid.None? || fileid.value == "" then (Response(400, StatusMessage("missing fileid")), store)
    else if fileid.value !in store then (Response(404, Existence(fileid.value, false)), store)
    else Operation(store, call, fileid.value, Get(args, "deletepassword"))
  }
}
