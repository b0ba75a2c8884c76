/** Messages of a transcript. */
module Chat {
  import opened Option
  import opened Json

  datatype Role = User | Assistant | System | Tool | Agent(id: string)

  datatype ToolCall = ToolCall(id: Option<string>, toolName: string, arguments: Json)

  datatype ChatMessage = ChatMessage(
    id: string,
    role: Role,
    content: string,
    toolCalls: seq<ToolCall>,
    toolCallId: Option<string>)

  // ----- Messages by id -----

  function Ids(transcript: seq<ChatMessage>): (ids: seq<string>)
    ensures |ids| == |transcript|
    ensures forall i :: 0 <= i < |ids| ==> ids[i] == transcript[i].id
  {
    seq(|transcript|, i requires 0 <= i < |transcript| => transcript[i].id)
  }

  /** What a map from id to index holds when it was filled from the front: the last index of the id. */
  function LastWith(ids: seq<string>, id: string): (r: Option<nat>)
    ensures r.Some? ==> r.value < |ids| && ids[r.value] == id
    ensures forall i :: (if r.Some? then r.value + 1 else 0) <= i < |ids| ==> ids[i] != id
  {
    if ids == [] then None
    else if ids[|ids| - 1] == id then Some(|ids| - 1)
    else LastWith(ids[..|ids| - 1], id)
  }

  ghost predicate DistinctIds(ids: seq<string>) {
    forall i, j :: 0 <= i < j < |ids| ==> ids[i] != ids[j]
  }

  lemma LastIsOnly(ids: seq<string>, i: nat)
    requires DistinctIds(ids) && i < |ids|
    ensures LastWith(ids, ids[i]) == Some(i)
  {}

  method IndexIds(ids: seq<string>) returns (index: map<string, nat>)
    ensures forall id :: if LastWith(ids, id).None? then id !in index
                         else id in index && Some(index[id]) == LastWith(ids, id)
  {
    index := map[];
    for i := 0 to |ids|
      invariant forall id :: if LastWith(ids[..i], id).None? then id !in index
                             else id in index && Some(index[id]) == LastWith(ids[..i], id)
    {
      assert ids[..i + 1][..i] == ids[..i];
      index := index[ids[i] := i];
    }
    assert ids[..|ids|] == ids;
  }
}
