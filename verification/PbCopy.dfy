/** A message through nanopb and back (nanopb/pb_encode.c, nanopb/pb_decode.c). */
module PbCopies {
  import opened Keys
  import opened PbMessages
  import opened PbFormat
  import opened PbAgreement
  import opened PbStreams
  import PbRoundTrip
  import PbEncoders
  import PbDecoders

  /** pb_encode into a buffer and pb_decode from the bytes written: it works for
      every well-formed message that fits the buffer, and only fails for lack of room. */
  method Copy(fields: seq<Field>, m: Message, memory: Message, buffer: array<byte>) returns (ok: bool, copy: Message)
    requires ValidSchema(fields) && MessageOk(fields, m) && MessageFits(fields, m) && Laid(fields, memory)
    modifies buffer
    ensures MessageBytes(fields, m, 0).Some?
    ensures ok <==> |MessageBytes(fields, m, 0).value| <= buffer.Length
    ensures ok ==> MessageReturns(fields, m, copy)
    ensures ok ==> (MessageAgrees(fields, m, copy) <==> MessageSurvives(fields, m))
  {
    hide MessageBytes, Decoded, MessageAgrees, MessageReturns, MessageSurvives, MessageOk, MessageFits, ValidSchema;
    PbRoundTrip.OkSize(fields, m);
    PbRoundTrip.RoundTrip(fields, m, memory);
    copy := memory;
    var output := new OutStream.FromBuffer(buffer, 0, buffer.Length);
    ok := PbEncoders.Encode(output, fields, m);
    if !ok {
      return;
    }
    var bytes := buffer[..output.state];
    var input := new InStream.FromBuffer(bytes, 0, |bytes|);
    assert output.Contents() == MessageBytes(fields, m, 0).value;
    assert bytes == input.Left() == MessageBytes(fields, m, 0).value;
    ok, copy := PbDecoders.Decode(input, fields, memory);
  }
}
