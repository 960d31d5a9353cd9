/** The data directory of the hushfile server, seen as values.

    The directory `data_path` holds one sub-directory (a "container") per
    file id; a container holds up to three files: `cryptofile.dat` (the
    ciphertext), `metadata.dat` (the client's opaque metadata) and
    `serverdata.json` (the delete password and the uploader's address).
    A container exists as soon as it is created, whether or not its three
    files were all written.
 */
module Objects {

  datatype Option<+T> = None | Some(value: T)

  /** The three files a container can hold. */
  datatype Part = CryptoDat | MetadataDat | ServerDataJson
  {
    /** The name the upload handler reports when writing this part fails. */
    function Name(): string {
      match this
      case CryptoDat => "cryptofile"
      case MetadataDat => "metadata"
      case ServerDataJson => "serverdatafile"
    }
  }

  /** The JSON object stored in `serverdata.json`. */
  datatype ServerRecord = ServerRecord(deletepassword: string, clientip: string)

  /** What a file holds: opaque text, or the decoded server record. */
  datatype Content = Blob(text: string) | Record(record: ServerRecord)

  /** A container: the files present in one file id's directory. */
  type Container = map<Part, Content>

  /** The data directory: container per file id. */
  type Store = map<string, Container>

  /** The five API calls that share the file-id guard. */
  datatype ApiCall = Exists | CryptoFile | Metadata | Delete | Ip

  /** The `status` an upload reports. */
  datatype UploadState = Ok | FieldMissing(field: string) | UnableToWrite(name: string)
  {
    /** The text of the `status` member of the JSON answer. */
    function Text(): string {
      match this
      case Ok => "ok"
      case FieldMissing(field) => "invalid upload request, " + field + " missing, error"
      case UnableToWrite(name) => "unable to write " + name
    }
  }

  /** The JSON (or streamed) bodies the handlers answer with. */
  datatype Body =
    | UploadStatus(status: UploadState, fileid: string)
    | StatusMessage(message: string)
    | Existence(fileid: string, fileExists: bool)
    | Deletion(fileid: string, deleted: bool)
    | UploadIp(fileid: string, uploadip: string)
    | Stream(chunks: seq<string>)
      /** Flask's answer to an exception the handler does not catch. */
    | InternalError

  datatype Response = Response(code: int, body: Body)

  /** The part written in the given position of an upload, in write order. */
  const WRITE_ORDER: seq<Part> := [CryptoDat, MetadataDat, ServerDataJson]

  /** The order in which `delete` unlinks the parts. */
  const UNLINK_ORDER: seq<Part> := [ServerDataJson, MetadataDat, CryptoDat]

  /** A container the upload handler can leave behind: the parts written
      so far are a prefix of the write order, and each holds its kind. */
  predicate WellFormed(c: Container) {
    && (ServerDataJson in c ==> MetadataDat in c)
    && (MetadataDat in c ==> CryptoDat in c)
    && (CryptoDat in c ==> c[CryptoDat].Blob?)
    && (MetadataDat in c ==> c[MetadataDat].Blob?)
    && (ServerDataJson in c ==> c[ServerDataJson].Record?)
  }

  /** A container whose three parts are all present. */
  predicate Complete(c: Container) {
    CryptoDat in c && MetadataDat in c && ServerDataJson in c
  }

  predicate StoreWellFormed(store: Store) {
    forall id | id in store :: WellFormed(store[id])
  }
}
