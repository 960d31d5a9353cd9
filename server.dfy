/** The handlers as they run: the data directory is an object whose map of
    containers each filesystem call updates in place, and `FileView` keeps
    the request's file id and container path in fields, as the view does.
 */
module Server {
  import opened Objects
  import opened Ids
  import opened Chunks
  import Api

  /** The directory `data_path`: one container per file id. */
  class DataDir {
    var objects: Store

    constructor (objects: Store)
      ensures this.objects == objects
    {
      this.objects := objects;
    }

    /** `os.mkdir`: a new, empty container. */
    method Mkdir(id: string)
      requires id !in objects
      modifies this
      ensures objects == old(objects)[id := map[]]
    {
      objects := objects[id := map[]];
    }

    /** `write_file`: write one part, answering with an error response
        when the write raises (`fails`) or the container is missing. */
    method WriteFile(id: string, part: Part, content: Content, fails: bool) returns (error: Option<Response>)
      modifies this
      ensures error.None? <==> Api.WriteFile(old(objects), id, part, content, fails).Some?
      ensures error.None? ==> objects == Api.WriteFile(old(objects), id, part, content, fails).value
      ensures error.Some? ==> error.value == Api.WriteError(part) && objects == old(objects)
    {
      if fails || id !in objects {
        return Some(Api.WriteError(part));
      }
      objects := objects[id := objects[id][part := content]];
      return None;
    }

    /** `os.unlink` of one part; false when the part is not there. */
    method Unlink(id: string, part: Part) returns (ok: bool)
      modifies this
      ensures ok <==> id in old(objects) && part in old(objects)[id]
      ensures ok ==> objects == old(objects)[id := old(objects)[id] - {part}]
      ensures !ok ==> objects == old(objects)
    {
      ok := id in objects && part in objects[id];
      if ok {
        objects := objects[id := objects[id] - {part}];
      }
    }

    /** `os.rmdir`: remove a container, which must be empty. */
    method Rmdir(id: string) returns (ok: bool)
      modifies this
      ensures ok <==> id in old(objects) && old(objects)[id] == map[]
      ensures ok ==> objects == old(objects) - {id}
      ensures !ok ==> objects == old(objects)
    {
      ok := id in objects && objects[id] == map[];
      if ok {
        objects := objects - {id};
      }
    }

    /** The upload handler: check the three fields in order, allocate an
        id, create its container and write the three parts in turn. */
    method Upload(req: Api.UploadRequest, draws: seq<UuidHex>, failing: set<Part>) returns (resp: Response)
      modifies this
      ensures (resp, objects) == Api.Upload(old(objects), req, draws, failing)
    {
      var i := 0;
      while i < |Api.FIELDS|
        invariant 0 <= i <= |Api.FIELDS|
        invariant forall j | 0 <= j < i :: Api.FIELDS[j] in req.form
      {
        if Api.FIELDS[i] !in req.form {
          Api.FirstMissingAt(req.form, Api.FIELDS, i);
          return Api.ValidationError(Api.FIELDS[i]);
        }
        i := i + 1;
      }
      Api.NoneMissingIffHasFields(req.form);

      var fileid := UniqueId(objects.Keys, draws);
      if fileid.None? {
        return Response(500, InternalError);
      }
      var id := fileid.value;
      Mkdir(id);

      var error := WriteFile(id, CryptoDat, Blob(req.form["cryptofile"]), CryptoDat in failing);
      if error.Some? {
        return error.value;
      }
      error := WriteFile(id, MetadataDat, Blob(req.form["metadata"]), MetadataDat in failing);
      if error.Some? {
        return error.value;
      }
      var record := ServerRecord(req.form["deletepassword"], Api.ClientIp(req));
      error := WriteFile(id, ServerDataJson, Record(record), ServerDataJson in failing);
      if error.Some? {
        return error.value;
      }
      resp := Response(200, UploadStatus(Ok, id));
    }
  }

  /** The view behind `/api/exists`, `/api/file`, `/api/metadata`,
      `/api/delete` and `/api/ip`; `apicall` selects the operation. */
  class FileView {
    const apicall: ApiCall
    const dir: DataDir
    var fileid: Option<string>
    /** The container's name in the data directory. */
    var filepath: string

    constructor (apicall: ApiCall, dir: DataDir)
      ensures this.apicall == apicall && this.dir == dir
      ensures fileid.None?
    {
      this.apicall := apicall;
      this.dir := dir;
      fileid := None;
      filepath := "";
    }

    /** The guard every call shares, then the selected operation. */
    method DispatchRequest(args: map<string, string>) returns (resp: Response)
      modifies this, dir
      ensures (resp, dir.objects) == Api.Dispatch(old(dir.objects), apicall, args)
    {
      fileid := Api.Get(args, "fileid");
      if fileid.None? || fileid.value == "" {
        return Response(400, StatusMessage("missing fileid"));
      }
      filepath := fileid.value;
      if filepath !in dir.objects {
        return Response(404, Existence(fileid.value, false));
      }
      match apicall
      case Exists =>
        resp := Exists();
      case CryptoFile =>
        resp := CryptoFile();
      case Metadata =>
        resp := Metadata();
      case Delete =>
        resp := Delete(args);
      case Ip =>
        resp := Ip();
    }

    method Exists() returns (resp: Response)
      requires fileid == Some(filepath)
      ensures resp == Api.Operation(dir.objects, ApiCall.Exists, filepath, None).0
    {
      resp := Response(200, Existence(fileid.value, true));
    }

    /** Stream one part of the container through `read_file_chunks`. */
    method ReadPart(part: Part) returns (resp: Response)
      ensures resp == Api.ReadPart(dir.objects, filepath, part)
    {
      if filepath in dir.objects && part in dir.objects[filepath] && dir.objects[filepath][part].Blob? {
        var chunks := ReadFileChunks(dir.objects[filepath][part].text, CHUNK_SIZE);
        resp := Response(200, Stream(chunks));
      } else {
        resp := Response(500, InternalError);
      }
    }

    method CryptoFile() returns (resp: Response)
      ensures resp == Api.ReadPart(dir.objects, filepath, CryptoDat)
    {
      resp := ReadPart(CryptoDat);
    }

    method Metadata() returns (resp: Response)
      ensures resp == Api.ReadPart(dir.objects, filepath, MetadataDat)
    {
      resp := ReadPart(MetadataDat);
    }

    /** Read the stored password, compare, then unlink the parts in order
        and remove the container. */
    method Delete(args: map<string, string>) returns (resp: Response)
      requires fileid == Some(filepath)
      modifies dir
      ensures (resp, dir.objects) == Api.Delete(old(dir.objects), filepath, Api.Get(args, "deletepassword"))
    {
      var pw := Api.Get(args, "deletepassword");
      var serverdata := Api.ServerData(dir.objects, filepath);
      if serverdata.None? {
        return Response(500, InternalError);
      }
      if pw != Some(serverdata.value.deletepassword) {
        return Response(401, Deletion(fileid.value, false));
      }
      ghost var c0 := dir.objects[filepath];
      var i := 0;
      while i < |UNLINK_ORDER|
        invariant 0 <= i <= |UNLINK_ORDER|
        invariant filepath in dir.objects
        invariant dir.objects == old(dir.objects)[filepath := dir.objects[filepath]]
        invariant Api.UnlinkAll(c0, UNLINK_ORDER) == Api.UnlinkAll(dir.objects[filepath], UNLINK_ORDER[i..])
      {
        ghost var c := dir.objects[filepath];
        var ok := dir.Unlink(filepath, UNLINK_ORDER[i]);
        if !ok {
          assert Api.UnlinkAll(c, UNLINK_ORDER[i..]) == (c, false);
          return Response(500, InternalError);
        }
        assert UNLINK_ORDER[i..][1..] == UNLINK_ORDER[i + 1..];
        i := i + 1;
      }
      assert UNLINK_ORDER[i..] == [];
      assert Api.UnlinkAll(c0, UNLINK_ORDER) == (dir.objects[filepath], true);
      var removed := dir.Rmdir(filepath);
      if !removed {
        return Response(500, InternalError);
      }
      assert dir.objects == old(dir.objects) - {filepath};
      resp := Response(200, Deletion(fileid.value, true));
    }

    method Ip() returns (resp: Response)
      requires fileid == Some(filepath)
      ensures resp == Api.Ip(dir.objects, filepath)
    {
      var serverdata := Api.ServerData(dir.objects, filepath);
      if serverdata.None? {
        return Response(500, InternalError);
      }
      resp := Response(200, UploadIp(fileid.value, serverdata.value.clientip));
    }
  }
}
