/**
 From the connection to the claims: an exchange that was observed to its trailer is one whose field claims fold
 the decoded body.
 */
module EndToEnd {
  import opened Acceptance
  import opened Bytes
  import opened ChunkedCoding
  import opened FieldProof
  import opened Frames
  import opened HttpStream
  import opened Json
  import opened Observation
  import opened SseStream

  /**
   The pieces that were framed, hashed and fed to the collector are the decoded body, so that the claims built
   from them are those of a chat exchange with that body, however the bytes arrived.
   */
  lemma ObservedIsFolded(t: Texts, stream: seq<byte>, reliable: bool, h: Headers, pieces: seq<seq<byte>>,
                         rules: Rules, o: Oracle, e: Exchange, streaming: bool)
    requires Faithful(t, stream, reliable, Started(h, pieces), true) && (reliable || SelfDelimiting(h))
    requires var r := BodyOf(h, stream[IndexOf(stream, HEAD_END, 0) + 4..]); r.end != Overflow && e.responseBody == r.body
    ensures Flatten(pieces) == e.responseBody
    ensures FoldsChat(rules, o, e, ChatFolded(rules, o, e.requestBody, pieces, streaming))
  {
    hide IndexOf, Dechunk, BodyOf, Flatten, Decodes, ChatFolded;
  }

  /**
   For a chunked response, whatever its chunks and extensions: the claims fold the concatenation of the chunk data.
   */
  lemma ChunkedIsFolded(t: Texts, head: seq<byte>, cs: seq<Chunk>, last: seq<byte>, tail: seq<byte>, reliable: bool,
                        h: Headers,
                        pieces: seq<seq<byte>>, rules: Rules, o: Oracle, e: Exchange, streaming: bool)
    requires IndexOf(head + HEAD_END, HEAD_END, 0) == |head| && t.parse(head) == Some(h) && h.chunked
    requires Encodable(cs) && ValidExtension(last) && |Body(cs)| <= MAX_RESP && e.responseBody == Body(cs)
    requires Faithful(t, head + HEAD_END + (Encode(cs, last) + tail), reliable, Started(h, pieces), true)
    ensures FoldsChat(rules, o, e, ChatFolded(rules, o, e.requestBody, pieces, streaming))
  {
    hide IndexOf, Encode, Encodable, ValidExtension, Flatten, Body, Faithful, ChatFolded;
    ChunkedExchange(t, head, cs, last, tail, reliable, Started(h, pieces));
  }
}
