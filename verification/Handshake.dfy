/** The accept key of the WebSocket handshake: computeAcceptKey of daemon/ws_pure.cpp, section 4.2.2 of RFC 6455. */
module Handshake {
  import opened WsFrame
  import opened Sha1Hash
  import opened Base64Text

  /** "258EAFA5-E914-47DA-95CA-C5AB0DC85B11" */
  const GUID: seq<byte> := [
    0x32, 0x35, 0x38, 0x45, 0x41, 0x46, 0x41, 0x35, 0x2D, 0x45, 0x39, 0x31, 0x34, 0x2D, 0x34, 0x37, 0x44, 0x41,
    0x2D, 0x39, 0x35, 0x43, 0x41, 0x2D, 0x43, 0x35, 0x41, 0x42, 0x30, 0x44, 0x43, 0x38, 0x35, 0x42, 0x31, 0x31]

  /**
   computeAcceptKey: Base64 of the SHA-1 digest of the key and the GUID; 28 characters that decode
   to the 20 digest bytes.
   */
  method ComputeAcceptKey(clientKey: seq<byte>) returns (accept: string)
    ensures accept == Base64(Sha1(clientKey + GUID))
    ensures |accept| == 28 && Decode(accept) == Bytes(Sha1(clientKey + GUID))
  {
    accept := HashText(clientKey + GUID);
  }

  method HashText(m: seq<byte>) returns (out: string)
    ensures out == Base64(Sha1(m)) && |out| == 28 && Decode(out) == Bytes(Sha1(m))
  {
    var digest := Sha1Raw(m);
    out := DigestText(digest);
  }

  method DigestText(digest: seq<byte>) returns (out: string)
    requires |digest| == 20
    ensures out == Base64(digest) && |out| == 28 && Decode(out) == Bytes(digest)
  {
    out := Base64Encode(digest);
    EncodesTo(digest, 20, 28);
  }
}
