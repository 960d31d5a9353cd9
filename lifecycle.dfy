/** The life of one stored object across several requests:
    NonExistent -> Active (upload) -> NonExistent (authorised delete),
    with any number of reads in between that change nothing.
 */
module Lifecycle {
  import opened Objects
  import opened Ids
  import opened Chunks
  import opened Api
  import opened UploadProperties
  import opened ViewProperties

  /** The query string `?fileid=<id>`. */
  function IdArgs(id: string): map<string, string> {
    map["fileid" := id]
  }

  /** The query string `?fileid=<id>&deletepassword=<pw>`. */
  function DeleteArgs(id: string, pw: string): map<string, string> {
    map["fileid" := id, "deletepassword" := pw]
  }

  /** What a client can read back about `id`: it exists, `cryptofile` and
      `metadata` stream back exactly the submitted texts, and `ip` gives the
      address recorded from the request; none of it changes the directory. */
  predicate Retrievable(store: Store, id: string, req: UploadRequest) {
    && Dispatch(store, Exists, IdArgs(id)) == (Response(200, Existence(id, true)), store)
    && Dispatch(store, CryptoFile, IdArgs(id)).0.body.Stream?
    && Get(req.form, "cryptofile") == Some(Concat(Dispatch(store, CryptoFile, IdArgs(id)).0.body.chunks))
    && Dispatch(store, Metadata, IdArgs(id)).0.body.Stream?
    && Get(req.form, "metadata") == Some(Concat(Dispatch(store, Metadata, IdArgs(id)).0.body.chunks))
    && Dispatch(store, Ip, IdArgs(id)) == (Response(200, UploadIp(id, ClientIp(req))), store)
  }

  /** A container holding what `req` submitted can be read back. */
  lemma StoredObjectRetrievable(store: Store, id: string, req: UploadRequest)
    requires HasFields(req.form) && id != ""
    requires id in store && store[id] == NewObject(req)
    ensures Retrievable(store, id, req)
  {
    ReadStreamsPart(store, id, CryptoDat);
    ReadStreamsPart(store, id, MetadataDat);
  }

  /** Round trip: after a successful upload, the returned id exists and
      its parts read back byte for byte as submitted. */
  lemma UploadThenFetch(store: Store, req: UploadRequest, draws: seq<UuidHex>, failing: set<Part>)
    requires Succeeded(Upload(store, req, draws, failing).0)
    ensures Retrievable(Upload(store, req, draws, failing).1, Upload(store, req, draws, failing).0.body.fileid, req)
  {
    UploadSucceeds(store, req, draws, failing);
    var (resp, after) := Upload(store, req, draws, failing);
    StoredObjectRetrievable(after, resp.body.fileid, req);
  }

  /** The id is unknown before the upload, known after it; a delete with
      the submitted password removes exactly what the upload added, and
      every later call on that id, a second delete included, gets 404. */
  lemma UploadThenDelete(store: Store, req: UploadRequest, draws: seq<UuidHex>, failing: set<Part>, pw: string)
    requires Succeeded(Upload(store, req, draws, failing).0)
    requires Get(req.form, "deletepassword") == Some(pw)
    ensures (var (resp, after) := Upload(store, req, draws, failing);
             var id := resp.body.fileid;
             && Dispatch(store, Exists, IdArgs(id)) == (Response(404, Existence(id, false)), store)
             && Dispatch(after, Exists, IdArgs(id)) == (Response(200, Existence(id, true)), after)
             && Dispatch(after, Delete, DeleteArgs(id, pw)) == (Response(200, Deletion(id, true)), store)
             && forall call :: Dispatch(store, call, DeleteArgs(id, pw)) == (Response(404, Existence(id, false)), store))
  {
    UploadSucceeds(store, req, draws, failing);
    var (resp, after) := Upload(store, req, draws, failing);
    var id := resp.body.fileid;
    assert id != "";
    DeleteAuthorized(after, DeleteArgs(id, pw));
    assert after - {id} == store;
  }

  /** A wrong or missing password leaves the object in place: it still
      exists and its parts still stream back. */
  lemma WrongPasswordKeepsObject(store: Store, req: UploadRequest, draws: seq<UuidHex>, failing: set<Part>, args: map<string, string>)
    requires Succeeded(Upload(store, req, draws, failing).0)
    requires "fileid" in args && args["fileid"] == Upload(store, req, draws, failing).0.body.fileid
    requires Get(args, "deletepassword") != Get(req.form, "deletepassword")
    ensures (var (resp, after) := Upload(store, req, draws, failing);
             var id := resp.body.fileid;
             && Dispatch(after, Delete, args) == (Response(401, Deletion(id, false)), after)
             && Dispatch(after, Exists, args) == (Response(200, Existence(id, true)), after)
             && Dispatch(after, CryptoFile, args).0.body.Stream?)
  {
    UploadSucceeds(store, req, draws, failing);
    var (resp, after) := Upload(store, req, draws, failing);
    assert resp.body.fileid != "";
  }

  /** One upload request with the random draws and write failures it meets. */
  datatype Attempt = Attempt(req: UploadRequest, draws: seq<UuidHex>, failing: set<Part>)

  /** One upload of a run: the id it hands out, if it succeeded, and the
      directory after it. */
  function Step(store: Store, a: Attempt): (Option<string>, Store) {
    var (resp, next) := Upload(store, a.req, a.draws, a.failing);
    (if Succeeded(resp) then Some(resp.body.fileid) else None, next)
  }

  /** Run uploads one after another; collect the ids of those that succeeded. */
  function UploadAll(store: Store, attempts: seq<Attempt>): (seq<string>, Store)
    decreases |attempts|
  {
    if attempts == [] then ([], store)
    else
      var (handed, next) := Step(store, attempts[0]);
      var (ids, last) := UploadAll(next, attempts[1..]);
      (if handed.Some? then [handed.value] + ids else ids, last)
  }

  /** One step keeps every name and hands out a name that was free. */
  lemma StepFacts(store: Store, a: Attempt)
    ensures store.Keys <= Step(store, a).1.Keys
    ensures Step(store, a).0.Some? ==>
              Step(store, a).0.value !in store && Step(store, a).0.value in Step(store, a).1
  {
    UploadKeepsExisting(store, a.req, a.draws, a.failing);
    UploadSucceeds(store, a.req, a.draws, a.failing);
  }

  /** Pairwise distinct names that are all fresh with respect to `before`. */
  predicate FreshDistinct(ids: seq<string>, before: set<string>, after: set<string>) {
    && (forall i, j | 0 <= i < j < |ids| :: ids[i] != ids[j])
    && (forall i | 0 <= i < |ids| :: ids[i] !in before && ids[i] in after)
  }

  /** Prepending a name taken between `before` and `middle` to names fresh
      after `middle` keeps them distinct and fresh. */
  lemma FreshDistinctCons(x: string, rest: seq<string>, before: set<string>, middle: set<string>, after: set<string>)
    requires FreshDistinct(rest, middle, after)
    requires x !in before && x in middle && before <= middle && middle <= after
    ensures FreshDistinct([x] + rest, before, after)
  {
    var ids := [x] + rest;
    forall i, j | 0 <= i < j < |ids| ensures ids[i] != ids[j] {
      assert ids[j] == rest[j - 1];
      if i > 0 {
        assert ids[i] == rest[i - 1];
      }
    }
    forall i | 0 <= i < |ids| ensures ids[i] !in before && ids[i] in after {
      if i > 0 {
        assert ids[i] == rest[i - 1];
      }
    }
  }

  /** Uniqueness: the ids handed out by any run of uploads are pairwise
      distinct, none names a container that existed before, and all of
      them name containers that exist after. */
  lemma {:induction false} UploadedIdsDistinct(store: Store, attempts: seq<Attempt>)
    ensures FreshDistinct(UploadAll(store, attempts).0, store.Keys, UploadAll(store, attempts).1.Keys)
    ensures store.Keys <= UploadAll(store, attempts).1.Keys
    decreases |attempts|
  {
    if attempts != [] {
      var (handed, next) := Step(store, attempts[0]);
      StepFacts(store, attempts[0]);
      UploadedIdsDistinct(next, attempts[1..]);
      var (rest, last) := UploadAll(next, attempts[1..]);
      if handed.Some? {
        assert UploadAll(store, attempts) == ([handed.value] + rest, last);
        FreshDistinctCons(handed.value, rest, store.Keys, next.Keys, last.Keys);
      } else {
        assert UploadAll(store, attempts) == (rest, last);
        assert FreshDistinct(rest, store.Keys, last.Keys);
      }
    }
  }

  /** The request of the worked example below. */
  function SampleRequest(remoteAddr: string): UploadRequest {
    UploadRequest(
      map["cryptofile" := "AAAA", "metadata" := "BBBB", "deletepassword" := "secret"],
      map[], remoteAddr)
  }

  /** The calls of the worked example, on the directory the upload leaves. */
  lemma SampleCalls(store: Store, id: string, remoteAddr: string)
    requires id != "" && id !in store
    ensures (var after := store[id := NewObject(SampleRequest(remoteAddr))];
             && Dispatch(after, CryptoFile, IdArgs(id)).0 == Response(200, Stream(["AAAA"]))
             && Dispatch(after, Delete, DeleteArgs(id, "wrong")) == (Response(401, Deletion(id, false)), after)
             && Dispatch(after, Delete, DeleteArgs(id, "secret")) == (Response(200, Deletion(id, true)), store)
             && Dispatch(store, Exists, IdArgs(id)) == (Response(404, Existence(id, false)), store))
  {
    var after := store[id := NewObject(SampleRequest(remoteAddr))];
    assert ChunksOf("", CHUNK_SIZE) == [];
    assert ChunksOf("AAAA", CHUNK_SIZE) == ["AAAA"];
    DeleteAuthorized(after, DeleteArgs(id, "secret"));
    assert after - {id} == store;
  }

  /** A worked example: upload "AAAA" / "BBBB" / "secret", fetch the
      ciphertext, try the wrong password, delete with the right one; the
      directory ends as it began. */
  lemma Walkthrough(store: Store, draw: UuidHex, remoteAddr: string)
    requires Candidate(draw) !in store
    ensures (var (up, after) := Upload(store, SampleRequest(remoteAddr), [draw], {});
             var id := Candidate(draw);
             && up == Response(200, UploadStatus(Ok, id))
             && Dispatch(after, CryptoFile, IdArgs(id)).0 == Response(200, Stream(["AAAA"]))
             && Dispatch(after, Delete, DeleteArgs(id, "wrong")) == (Response(401, Deletion(id, false)), after)
             && Dispatch(after, Delete, DeleteArgs(id, "secret")) == (Response(200, Deletion(id, true)), store)
             && Dispatch(store, Exists, IdArgs(id)) == (Response(404, Existence(id, false)), store))
  {
    var req := SampleRequest(remoteAddr);
    var id := Candidate(draw);
    UniqueIdFirstFree(store.Keys, [draw], 0);
    UploadAllocated(store, req, [draw], {});
    assert Upload(store, req, [draw], {}) == (Response(200, UploadStatus(Ok, id)), store[id := NewObject(req)]);
    SampleCalls(store, id, remoteAddr);
  }
}
