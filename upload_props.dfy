/** What an upload promises: validation before any side effect, a fresh
    13-character id, the submitted parts stored as they were sent, a
    partial container when a write fails, and no other container touched.
 */
module UploadProperties {
  import opened Objects
  import opened Ids
  import opened Api

  /** The answer of an upload that stored its object. */
  predicate Succeeded(resp: Response) {
    resp.code == 200 && resp.body.UploadStatus? && resp.body.status == Ok
  }

  /** What is left of a new object when the write of part `WRITE_ORDER[k]`
      fails: the parts written before it. */
  function PartialObject(req: UploadRequest, k: nat): (c: Container)
    requires HasFields(req.form) && k <= |WRITE_ORDER|
    ensures forall p :: p in c <==> p in WRITE_ORDER[..k]
    ensures forall p | p in c :: c[p] == NewObject(req)[p]
  {
    map p | p in WRITE_ORDER[..k] :: NewObject(req)[p]
  }

  /** A request that lacks a field gets 400 naming the first missing one
      in the order cryptofile, metadata, deletepassword, with an empty file
      id, and the directory is left as it was: nothing is allocated. */
  lemma MissingFieldRejected(store: Store, req: UploadRequest, draws: seq<UuidHex>, failing: set<Part>, i: nat)
    requires i < |FIELDS| && FIELDS[i] !in req.form
    requires forall j | 0 <= j < i :: FIELDS[j] in req.form
    ensures Upload(store, req, draws, failing)
         == (Response(400, UploadStatus(FieldMissing(FIELDS[i]), "")), store)
  {
    FirstMissingAt(req.form, FIELDS, i);
  }

  /** An upload succeeds exactly when the three fields are present, an id
      can be drawn and no write fails; then its id is a fresh 13-character
      lower-case hex name and the directory gains exactly that container,
      holding the submitted ciphertext, metadata, delete password and
      uploader address. */
  lemma UploadSucceeds(store: Store, req: UploadRequest, draws: seq<UuidHex>, failing: set<Part>)
    ensures Succeeded(Upload(store, req, draws, failing).0)
        <==> HasFields(req.form) && UniqueId(store.Keys, draws).Some?
             && failing !! {CryptoDat, MetadataDat, ServerDataJson}
    ensures Succeeded(Upload(store, req, draws, failing).0) ==>
              (var (resp, after) := Upload(store, req, draws, failing);
               && HasFields(req.form)
               && resp.body.fileid !in store
               && IsFileId(resp.body.fileid)
               && after == store[resp.body.fileid := NewObject(req)])
  {
    if HasFields(req.form) {
      NoneMissingIffHasFields(req.form);
      if UniqueId(store.Keys, draws).Some? {
        UploadAllocated(store, req, draws, failing);
      }
    } else if FirstMissing(req.form, FIELDS).None? {
      NoneMissingIffHasFields(req.form);
    }
  }

  /** The four outcomes of an upload once the fields are there and an id
      is drawn, by the first part whose write fails. */
  lemma UploadAllocated(store: Store, req: UploadRequest, draws: seq<UuidHex>, failing: set<Part>)
    requires HasFields(req.form) && UniqueId(store.Keys, draws).Some?
    ensures
      var id := UniqueId(store.Keys, draws).value;
      var obj := NewObject(req);
      Upload(store, req, draws, failing)
        == if CryptoDat in failing then
             (WriteError(CryptoDat), store[id := map[]])
           else if MetadataDat in failing then
             (WriteError(MetadataDat), store[id := map[CryptoDat := obj[CryptoDat]]])
           else if ServerDataJson in failing then
             (WriteError(ServerDataJson),
              store[id := map[CryptoDat := obj[CryptoDat], MetadataDat := obj[MetadataDat]]])
           else
             (Response(200, UploadStatus(Ok, id)), store[id := obj])
  {
    NoneMissingIffHasFields(req.form);
    var id := UniqueId(store.Keys, draws).value;
    var obj := NewObject(req);
    var s0 := store[id := map[]];
    var s1 := store[id := map[CryptoDat := obj[CryptoDat]]];
    var s2 := store[id := map[CryptoDat := obj[CryptoDat], MetadataDat := obj[MetadataDat]]];
    assert WriteFile(s0, id, CryptoDat, obj[CryptoDat], false) == Some(s1) by {
      assert s0[id][CryptoDat := obj[CryptoDat]] == map[CryptoDat := obj[CryptoDat]];
      assert s0[id := map[CryptoDat := obj[CryptoDat]]] == s1;
    }
    assert WriteFile(s1, id, MetadataDat, obj[MetadataDat], false) == Some(s2) by {
      assert s1[id][MetadataDat := obj[MetadataDat]]
          == map[CryptoDat := obj[CryptoDat], MetadataDat := obj[MetadataDat]];
      assert s1[id := s1[id][MetadataDat := obj[MetadataDat]]] == s2;
    }
    assert WriteFile(s2, id, ServerDataJson, obj[ServerDataJson], false) == Some(store[id := obj]) by {
      assert s2[id][ServerDataJson := obj[ServerDataJson]] == obj;
      assert s2[id := obj] == store[id := obj];
    }
  }

  /** A failed write answers "unable to write <name>" with an empty file id
      and leaves the container with the parts written before it; later
      parts are not written. */
  lemma WriteFailureLeavesPartialObject(store: Store, req: UploadRequest, draws: seq<UuidHex>, failing: set<Part>, k: nat)
    requires HasFields(req.form) && UniqueId(store.Keys, draws).Some?
    requires k < |WRITE_ORDER| && WRITE_ORDER[k] in failing
    requires forall j | 0 <= j < k :: WRITE_ORDER[j] !in failing
    ensures (var id := UniqueId(store.Keys, draws).value;
             Upload(store, req, draws, failing)
               == (Response(200, UploadStatus(UnableToWrite(WRITE_ORDER[k].Name()), "")),
                   store[id := PartialObject(req, k)]))
  {
    UploadAllocated(store, req, draws, failing);
    var obj := NewObject(req);
    if k == 0 {
      assert PartialObject(req, 0) == map[];
    } else if k == 1 {
      assert WRITE_ORDER[0] !in failing;
      assert PartialObject(req, 1) == map[CryptoDat := obj[CryptoDat]];
    } else {
      assert WRITE_ORDER[0] !in failing && WRITE_ORDER[1] !in failing;
      assert PartialObject(req, 2) == map[CryptoDat := obj[CryptoDat], MetadataDat := obj[MetadataDat]];
    }
  }

  /** Whatever the outcome, every container that existed is unchanged, and
      at most one container is added, under a name that was free. */
  lemma UploadKeepsExisting(store: Store, req: UploadRequest, draws: seq<UuidHex>, failing: set<Part>)
    ensures (var after := Upload(store, req, draws, failing).1;
             && store.Keys <= after.Keys
             && (forall id | id in store :: after[id] == store[id])
             && (after.Keys == store.Keys
                 || (UniqueId(store.Keys, draws).Some?
                     && after.Keys == store.Keys + {UniqueId(store.Keys, draws).value})))
  {
    if FirstMissing(req.form, FIELDS).None? && UniqueId(store.Keys, draws).Some? {
      NoneMissingIffHasFields(req.form);
      UploadAllocated(store, req, draws, failing);
      var id := UniqueId(store.Keys, draws).value;
      var c := Upload(store, req, draws, failing).1[id];
      assert Upload(store, req, draws, failing).1 == store[id := c];
    }
  }

  /** An upload leaves only well-formed containers behind when it starts
      from them: a failed write leaves a prefix of the parts. */
  lemma UploadPreservesWellFormed(store: Store, req: UploadRequest, draws: seq<UuidHex>, failing: set<Part>)
    requires StoreWellFormed(store)
    ensures StoreWellFormed(Upload(store, req, draws, failing).1)
  {
    if FirstMissing(req.form, FIELDS).None? && UniqueId(store.Keys, draws).Some? {
      NoneMissingIffHasFields(req.form);
      UploadAllocated(store, req, draws, failing);
      var id := UniqueId(store.Keys, draws).value;
      var obj := NewObject(req);
      var c :=
        if CryptoDat in failing then map[]
        else if MetadataDat in failing then map[CryptoDat := obj[CryptoDat]]
        else if ServerDataJson in failing then map[CryptoDat := obj[CryptoDat], MetadataDat := obj[MetadataDat]]
        else obj;
      assert Upload(store, req, draws, failing).1 == store[id := c];
      assert WellFormed(c);
    }
  }
}
