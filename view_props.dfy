/** What one call through `FileView` promises: the shared guard, reads that
    change nothing, `ip` without a password, and `delete` gated on the
    stored password, touching no other container.
 */
module ViewProperties {
  import opened Objects
  import opened Chunks
  import opened Api

  /** The guard: no `fileid` or an empty one gives 400, an absent container
      gives 404 with `exists: false`; in both cases nothing changes. */
  lemma DispatchGuard(store: Store, call: ApiCall, args: map<string, string>)
    ensures ("fileid" !in args || args["fileid"] == "") ==>
              Dispatch(store, call, args) == (Response(400, StatusMessage("missing fileid")), store)
    ensures ("fileid" in args && args["fileid"] != "" && args["fileid"] !in store) ==>
              Dispatch(store, call, args) == (Response(404, Existence(args["fileid"], false)), store)
  {
  }

  /** `exists` answers true exactly when the container is there, whatever
      parts it holds, and changes nothing. */
  lemma ExistsIffContainer(store: Store, args: map<string, string>)
    requires "fileid" in args && args["fileid"] != ""
    ensures Dispatch(store, Exists, args).1 == store
    ensures Dispatch(store, Exists, args).0.code == 200 <==> args["fileid"] in store
    ensures Dispatch(store, Exists, args).0.body == Existence(args["fileid"], args["fileid"] in store)
  {
  }

  /** Only `delete` can change the data directory. */
  lemma ReadsChangeNothing(store: Store, call: ApiCall, args: map<string, string>)
    requires call != Delete
    ensures Dispatch(store, call, args).1 == store
  {
  }

  /** `cryptofile` and `metadata` stream exactly the stored text, in
      non-empty pieces of at most 4096 characters. */
  lemma ReadStreamsPart(store: Store, id: string, part: Part)
    requires id in store && part in store[id] && store[id][part].Blob?
    ensures ReadPart(store, id, part).code == 200
    ensures ReadPart(store, id, part).body.Stream?
    ensures Concat(ReadPart(store, id, part).body.chunks) == store[id][part].text
    ensures forall i | 0 <= i < |ReadPart(store, id, part).body.chunks| ::
              0 < |ReadPart(store, id, part).body.chunks[i]| <= CHUNK_SIZE
  {
    ChunksConcat(store[id][part].text, CHUNK_SIZE);
    ChunksBounded(store[id][part].text, CHUNK_SIZE);
  }

  /** `ip` gives the recorded address to anyone who knows the id: the
      password argument plays no part. */
  lemma IpNeedsNoPassword(store: Store, args: map<string, string>)
    requires "fileid" in args && args["fileid"] != ""
    requires ServerData(store, args["fileid"]).Some?
    ensures Dispatch(store, Ip, args)
         == (Response(200, UploadIp(args["fileid"], ServerData(store, args["fileid"]).value.clientip)), store)
  {
  }

  /** A supplied password that is absent or differs from the stored one
      gives 401 with `deleted: false` and changes nothing. */
  lemma DeleteUnauthorized(store: Store, args: map<string, string>)
    requires "fileid" in args && args["fileid"] != ""
    requires ServerData(store, args["fileid"]).Some?
    requires Get(args, "deletepassword") != Some(ServerData(store, args["fileid"]).value.deletepassword)
    ensures Dispatch(store, Delete, args) == (Response(401, Deletion(args["fileid"], false)), store)
  {
  }

  /** Unlinking the three parts of a complete container empties it. */
  lemma {:induction false} UnlinkComplete(c: Container)
    requires Complete(c)
    ensures UnlinkAll(c, UNLINK_ORDER) == (map[], true)
  {
    var c1 := c - {ServerDataJson};
    var c2 := c1 - {MetadataDat};
    var c3 := c2 - {CryptoDat};
    assert UNLINK_ORDER[1..] == [MetadataDat, CryptoDat];
    assert UNLINK_ORDER[1..][1..] == [CryptoDat];
    assert UNLINK_ORDER[1..][1..][1..] == [];
    assert UnlinkAll(c3, []) == (c3, true);
    assert UnlinkAll(c2, [CryptoDat]) == (c3, true);
    assert UnlinkAll(c1, [MetadataDat, CryptoDat]) == (c3, true);
    assert c3.Keys == {} by {
      forall p: Part ensures p !in c3 {
        assert p == ServerDataJson || p == MetadataDat || p == CryptoDat;
      }
    }
    assert c3 == map[];
  }

  /** The right password on a well-formed container removes its three
      parts and the container itself, with 200 and `deleted: true`. */
  lemma DeleteAuthorized(store: Store, args: map<string, string>)
    requires "fileid" in args && args["fileid"] != ""
    requires args["fileid"] in store && WellFormed(store[args["fileid"]])
    requires ServerData(store, args["fileid"]).Some?
    requires Get(args, "deletepassword") == Some(ServerData(store, args["fileid"]).value.deletepassword)
    ensures Dispatch(store, Delete, args) == (Response(200, Deletion(args["fileid"], true)), store - {args["fileid"]})
  {
    UnlinkComplete(store[args["fileid"]]);
  }

  /** A container whose `serverdata.json` was never written (an upload
      whose last write failed) can be neither deleted nor changed by any
      call; `delete` answers 500. */
  lemma PartialObjectIsPermanent(store: Store, call: ApiCall, args: map<string, string>)
    requires "fileid" in args && args["fileid"] in store
    requires ServerDataJson !in store[args["fileid"]]
    ensures Dispatch(store, call, args).1 == store
    ensures call == Delete && args["fileid"] != "" ==> Dispatch(store, call, args).0 == Response(500, InternalError)
  {
  }

  /** No call changes a container other than the one it names. */
  lemma DispatchTouchesOnlyItsId(store: Store, call: ApiCall, args: map<string, string>, other: string)
    requires "fileid" !in args || other != args["fileid"]
    ensures other in Dispatch(store, call, args).1 <==> other in store
    ensures other in store ==> Dispatch(store, call, args).1[other] == store[other]
  {
  }

  /** Every call keeps the data directory well formed. */
  lemma DispatchPreservesWellFormed(store: Store, call: ApiCall, args: map<string, string>)
    requires StoreWellFormed(store)
    ensures StoreWellFormed(Dispatch(store, call, args).1)
  {
    if call == Delete && "fileid" in args && args["fileid"] in store
       && ServerData(store, args["fileid"]).Some?
       && Get(args, "deletepassword") == Some(ServerData(store, args["fileid"]).value.deletepassword) {
      UnlinkComplete(store[args["fileid"]]);
    }
  }
}
