/** The two loops of the acknowledgement protocol over their byte buffers (TCPMeasure/Basic/MeasureTCP.cpp,
    handle_client; TCPMeasure/Basic/ClientBasicTCPM.cpp, send_data_with_metrics), proved against the stream functions of
    module AckProtocol. */
module AckPrograms {
  import opened Basics
  import opened AckProtocol

  /** recv or memcpy into the front of a buffer. */
  method CopyToFront(buffer: array<byte>, chunk: seq<byte>)
    requires |chunk| <= buffer.Length
    modifies buffer
    ensures buffer[..] == Overwrite(old(buffer[..]), chunk)
    ensures forall j :: 0 <= j < |chunk| ==> buffer[j] == chunk[j]
    ensures forall j :: |chunk| <= j < buffer.Length ==> buffer[j] == old(buffer[j])
  {
    for k := 0 to |chunk|
      invariant forall j :: 0 <= j < k ==> buffer[j] == chunk[j]
      invariant forall j :: k <= j < buffer.Length ==> buffer[j] == old(buffer[j])
    {
      buffer[k] := chunk[k];
    }
  }

  /** The server's loop over the data its recv calls return: one ack per read, the first eight bytes of the buffer at
      that moment, whatever part of them the read itself brought. */
  method HandleClient(buffer: array<byte>, received: seq<seq<byte>>) returns (acks: seq<seq<byte>>, totalBytes: int)
    requires buffer.Length == READ_SIZE && Sizes(received, READ_SIZE)
    modifies buffer
    ensures buffer[..] == BufferAfter(old(buffer[..]), received)
    ensures |acks| == |received| && AcksMatch(old(buffer[..]), received, acks)
    ensures totalBytes == Wrap32(|Flatten(received)|)
  {
    ghost var first := buffer[..];
    acks, totalBytes := [], 0;
    for k := 0 to |received|
      invariant buffer[..] == BufferAfter(first, received[..k])
      invariant |acks| == k && AcksMatch(first, received[..k], acks)
      invariant totalBytes == Wrap32(|Flatten(received[..k])|)
    {
      ghost var upTo := received[..k + 1];
      assert upTo[..k] == received[..k] && upTo == received[..k] + [received[k]];
      CopyToFront(buffer, received[k]);
      MatchMoreChunks(first, received[..k], received[k], acks);
      MatchMoreAcks(first, upTo, acks, buffer[..STAMP]);
      TotalStep(upTo);
      assert buffer[..][..STAMP] == buffer[..STAMP];
      acks := acks + [buffer[..STAMP]];
      totalBytes := Wrap32(totalBytes + |received[k]|);
    }
    assert received[..|received|] == received;
  }

  /** The client's loop: the timestamp is written over the front of a buffer of padding, and the buffer is sent. */
  method SendData(stamps: seq<int64>) returns (sent: seq<byte>, dataSent: int)
    ensures sent == Stream(stamps)
    ensures dataSent == Wrap32(PACKET * |stamps|)
  {
    var buffer := new byte[PACKET](_ => PADDING);
    sent, dataSent := [], 0;
    for k := 0 to |stamps|
      invariant buffer[..][STAMP..] == seq(PACKET - STAMP, _ => PADDING)
      invariant sent == Stream(stamps[..k])
      invariant dataSent == Wrap32(PACKET * k)
    {
      CopyToFront(buffer, EncodeStamp(stamps[k]));
      assert buffer[..] == PacketOf(stamps[k]);
      assert stamps[..k + 1][..k] == stamps[..k];
      sent := sent + buffer[..];
      WrapAdds(PACKET * k, PACKET);
      dataSent := Wrap32(dataSent + PACKET);
    }
    assert stamps[..|stamps|] == stamps;
  }
}
