/** `read_file_chunks`: reads a text file `chunk_size` characters at a time
    and yields each non-empty piece, stopping at the first empty read.

    The file is given by its content; the generator's pieces are returned
    together as a sequence.
 */
module Chunks {

  /** The default `chunk_size` of `read_file_chunks`. */
  const CHUNK_SIZE: int := 4096

  /** What `fh.read(n)` returns when `rest` is what is left of the file:
      at most `n` characters, or everything left when `n` is negative. */
  function Read(rest: string, n: int): (data: string)
    ensures data <= rest
    ensures n < 0 ==> data == rest
    ensures 0 <= n ==> |data| == if n < |rest| then n else |rest|
  {
    if n < 0 || |rest| <= n then rest else rest[..n]
  }

  /** The pieces the generator yields for a file holding `content`. */
  function ChunksOf(content: string, n: int): (chunks: seq<string>)
    ensures chunks == [] <==> content == "" || n == 0
    ensures |chunks| <= |content|
    decreases |content|
  {
    var data := Read(content, n);
    if data == "" then [] else [data] + ChunksOf(content[|data|..], n)
  }

  /** The text a client receives when the pieces are streamed one after the other. */
  function Concat(chunks: seq<string>): string {
    if chunks == [] then "" else chunks[0] + Concat(chunks[1..])
  }

  /** Every piece is non-empty and no longer than a positive chunk size;
      every piece but the last has exactly that size. */
  lemma {:induction false} ChunksBounded(content: string, n: int)
    ensures forall i | 0 <= i < |ChunksOf(content, n)| :: ChunksOf(content, n)[i] != ""
    ensures 0 < n ==> forall i | 0 <= i < |ChunksOf(content, n)| :: |ChunksOf(content, n)[i]| <= n
    ensures 0 < n ==> forall i | 0 <= i < |ChunksOf(content, n)| - 1 :: |ChunksOf(content, n)[i]| == n
    decreases |content|
  {
    var data := Read(content, n);
    if data != "" {
      ChunksBounded(content[|data|..], n);
      var rest := ChunksOf(content[|data|..], n);
      assert ChunksOf(content, n) == [data] + rest;
      if 0 < n && |rest| > 0 {
        assert |content[|data|..]| > 0;
        assert |data| == n;
      }
    }
  }

  /** Streaming the pieces gives back the file: the whole content for a
      non-zero chunk size, and nothing for `chunk_size == 0` (a read of zero
      characters looks like the end of the file). */
  lemma {:induction false} ChunksConcat(content: string, n: int)
    ensures Concat(ChunksOf(content, n)) == if n == 0 then "" else content
    decreases |content|
  {
    var data := Read(content, n);
    if data != "" {
      var rest := content[|data|..];
      ChunksConcat(rest, n);
      var chunks := [data] + ChunksOf(rest, n);
      assert ChunksOf(content, n) == chunks;
      assert chunks[0] == data && chunks[1..] == ChunksOf(rest, n);
      assert Concat(chunks) == data + Concat(ChunksOf(rest, n));
      assert n != 0;
      assert data == content[..|data|];
      assert data + rest == content;
    }
  }

  /** `read_file_chunks(filename, chunk_size)` on a file holding `content`. */
  method ReadFileChunks(content: string, chunkSize: int) returns (chunks: seq<string>)
    ensures chunks == ChunksOf(content, chunkSize)
    ensures forall i | 0 <= i < |chunks| :: chunks[i] != ""
    ensures 0 < chunkSize ==> forall i | 0 <= i < |chunks| :: |chunks[i]| <= chunkSize
    ensures Concat(chunks) == if chunkSize == 0 then "" else content
  {
    chunks := [];
    var rest := content;  // what the file handle has not read yet
    while true
      invariant ChunksOf(content, chunkSize) == chunks + ChunksOf(rest, chunkSize)
      decreases |rest|
    {
      var data := Read(rest, chunkSize);
      if data == "" {
        break;
      }
      ghost var later := ChunksOf(rest[|data|..], chunkSize);
      assert ChunksOf(rest, chunkSize) == [data] + later;
      assert chunks + ([data] + later) == (chunks + [data]) + later;
      chunks := chunks + [data];
      rest := rest[|data|..];
    }
    ChunksBounded(content, chunkSize);
    ChunksConcat(content, chunkSize);
  }
}
