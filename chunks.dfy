/** Ingestion of one video's transcript (`ingest_video` in Backend/index.py):
    every transcript line becomes one chunk, given as three parallel lists
    (document texts, metadata records and ids) that are handed to the vector
    store. The embedding call and the store itself are outside this model. */
module Chunks {
  import opened Text

  /** One timed line of a transcript; `start` is already whole seconds. */
  datatype TranscriptEntry = TranscriptEntry(text: string, start: int)

  /** The metadata stored with every chunk and returned with every match. */
  datatype Metadata = Metadata(videoId: string, start: int, text: string)

  /** The id of the `i`-th chunk of a video: `f"{video_id}_{i}"`. */
  function ChunkId(videoId: string, i: nat): (id: string)
    ensures |id| >= |videoId| + 2 && id[..|videoId|] == videoId && id[|videoId|] == '_'
  {
    videoId + "_" + NatToString(i)
  }

  /** Splits an id at its last underscore into the video id and the chunk number. */
  function ParseChunkId(id: string): Option<(string, nat)> {
    match LastIndexOf(id, '_')
    case None => None
    case Some(k) =>
      var digits := id[k + 1..];
      if |digits| >= 1 && AllDigits(digits) then Some((id[..k], ParseNat(digits))) else None
  }

  /** A chunk id names its video and its position: reading it back gives both. */
  lemma ChunkIdRoundTrip(videoId: string, i: nat)
    ensures ParseChunkId(ChunkId(videoId, i)) == Some((videoId, i))
  {
    var digits := NatToString(i);
    var id := ChunkId(videoId, i);
    assert id == videoId + ['_'] + digits;
    LastIndexOfJoin(videoId, '_', digits);
    assert id[..|videoId|] == videoId;
    assert id[|videoId| + 1..] == digits;
    ParseNatToString(i);
  }

  /** Two chunks share an id only if they are the same position of the same video. */
  lemma ChunkIdInjective(v1: string, i1: nat, v2: string, i2: nat)
    requires ChunkId(v1, i1) == ChunkId(v2, i2)
    ensures v1 == v2 && i1 == i2
  {
    ChunkIdRoundTrip(v1, i1);
    ChunkIdRoundTrip(v2, i2);
  }

  /** The loop of `ingest_video`: one text, one metadata record and one id per
      transcript entry, in transcript order. */
  method IngestVideo(videoId: string, transcript: seq<TranscriptEntry>)
    returns (texts: seq<string>, metadatas: seq<Metadata>, ids: seq<string>)
    ensures |texts| == |transcript| && |metadatas| == |transcript| && |ids| == |transcript|
    ensures forall i :: 0 <= i < |transcript| ==>
      texts[i] == transcript[i].text &&
      metadatas[i] == Metadata(videoId, transcript[i].start, transcript[i].text) &&
      ids[i] == ChunkId(videoId, i)
    ensures forall i, j :: 0 <= i < j < |ids| ==> ids[i] != ids[j]
  {
    texts, metadatas, ids := [], [], [];
    var i := 0;
    while i < |transcript|
      invariant 0 <= i <= |transcript|
      invariant |texts| == i && |metadatas| == i && |ids| == i
      invariant forall k :: 0 <= k < i ==>
        texts[k] == transcript[k].text &&
        metadatas[k] == Metadata(videoId, transcript[k].start, transcript[k].text) &&
        ids[k] == ChunkId(videoId, k)
    {
      var entry := transcript[i];
      texts := texts + [entry.text];
      metadatas := metadatas + [Metadata(videoId, entry.start, entry.text)];
      ids := ids + [ChunkId(videoId, i)];
      i := i + 1;
    }
    forall i, j | 0 <= i < j < |ids|
      ensures ids[i] != ids[j]
    {
      if ids[i] == ids[j] {
        ChunkIdInjective(videoId, i, videoId, j);
      }
    }
  }
}
