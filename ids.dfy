/** File-id allocation: `get_unique_id` truncates `uuid.uuid4().hex` to 13
    characters and draws again while a container of that name exists.

    The random draws are a parameter: `draws` lists the successive values of
    `uuid4().hex`. The source recurses without bound; here the recursion
    stops when the draws run out, which the handlers treat like the
    interpreter's recursion limit (an unhandled exception).
 */
module Ids {
  import opened Objects

  /** Length of a file id. */
  const ID_LENGTH: nat := 13

  predicate IsLowerHex(ch: char) {
    '0' <= ch <= '9' || 'a' <= ch <= 'f'
  }

  predicate IsLowerHexString(s: string) {
    forall i | 0 <= i < |s| :: IsLowerHex(s[i])
  }

  /** The text of `uuid4().hex`: 32 lower-case hex digits, with the version
      digit `4` at index 12 and the variant digit (8, 9, a or b) at index 16. */
  predicate IsUuid4Hex(s: string) {
    && |s| == 32
    && IsLowerHexString(s)
    && s[12] == '4'
    && s[16] in "89ab"
  }

  type UuidHex = s: string | IsUuid4Hex(s)
    witness "00000000000040008000000000000000"

  /** A well-shaped file id. */
  predicate IsFileId(s: string) {
    |s| == ID_LENGTH && IsLowerHexString(s)
  }

  /** The candidate id that one draw yields: `hex[:13]`. */
  function Candidate(draw: UuidHex): (id: string)
    ensures IsFileId(id)
    ensures id[ID_LENGTH - 1] == '4'
  {
    draw[..ID_LENGTH]
  }

  /** `get_unique_id`: the first candidate not already a container name.
      `None` means every draw collided. */
  function UniqueId(taken: set<string>, draws: seq<UuidHex>): (r: Option<string>)
    ensures r.Some? ==> r.value !in taken && IsFileId(r.value)
    ensures r.Some? ==> exists i | 0 <= i < |draws| :: Candidate(draws[i]) == r.value
    ensures r.None? <==> forall i | 0 <= i < |draws| :: Candidate(draws[i]) in taken
  {
    if draws == [] then None
    else if Candidate(draws[0]) !in taken then Some(Candidate(draws[0]))
    else
      assert forall i | 1 <= i < |draws| :: draws[i] == draws[1..][i - 1];
      UniqueId(taken, draws[1..])
  }

  /** The allocated id does not depend on draws after the first free one:
      a fresh first draw is taken as it is. */
  lemma {:induction false} UniqueIdFirstFree(taken: set<string>, draws: seq<UuidHex>, i: nat)
    requires i < |draws|
    requires Candidate(draws[i]) !in taken
    requires forall j | 0 <= j < i :: Candidate(draws[j]) in taken
    ensures UniqueId(taken, draws) == Some(Candidate(draws[i]))
  {
    if i > 0 {
      assert Candidate(draws[0]) in taken;
      assert forall j | 0 <= j < i - 1 :: draws[1..][j] == draws[j + 1];
      UniqueIdFirstFree(taken, draws[1..], i - 1);
    }
  }

  /** Every id `get_unique_id` hands out ends in the uuid4 version digit. */
  lemma AllocatedIdEndsInVersionDigit(taken: set<string>, draws: seq<UuidHex>)
    requires UniqueId(taken, draws).Some?
    ensures UniqueId(taken, draws).value[ID_LENGTH - 1] == '4'
  {
    var i :| 0 <= i < |draws| && Candidate(draws[i]) == UniqueId(taken, draws).value;
  }
}
