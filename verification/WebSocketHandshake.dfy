// The answer to a WebSocket opening handshake (section 4.2.2 of RFC 6455): SHA-1 and base64 together.
module WebSocketHandshake {
  import opened Bytes
  import opened Sha1Standard
  import opened Sha1
  import Base64

  /** The octets of "258EAFA5-E914-47DA-95CA-C5AB0DC85B11". */
  const GUID: seq<byte> := [
      50, 53, 56, 69, 65, 70, 65, 53, 45, 69, 57, 49,
      52, 45, 52, 55, 68, 65, 45, 57, 53, 67, 65, 45,
      67, 53, 65, 66, 48, 68, 67, 56, 53, 66, 49, 49]

  lemma GuidIsText(i: nat)
    requires i < 36
    ensures |GUID| == 36 && GUID[i] as char == "258EAFA5-E914-47DA-95CA-C5AB0DC85B11"[i]
  {
    if i < 12 {} else if i < 24 {} else {}
  }

  /** The octets of the standard's digest. */
  function DigestOf(message: seq<byte>): (octets: seq<byte>)
    ensures |octets| == 20
  {
    DigestOctets(Digest(message))
  }

  /** base64encode with the standard alphabet. */
  method EncodeStandard(data: seq<byte>) returns (text: string)
    ensures text == Base64.Encoded(false, data)
  {
    Base64.Alphabets();
    var chars := Base64.Base64Encode(data, Base64.EncoderOf(Base64.KeyFor(false)));
    text := chars[..];
  }

  method Sha1Of(message: seq<byte>) returns (octets: seq<byte>)
    ensures |message| < 0x2000_0000 ==> octets == DigestOf(message)
  {
    var s := new SHA1();
    s.ProcessBytes(message);
    assert s.fed == message;
    octets := s.GetDigestBytes();
  }

  /** What the client makes of the answer: the digest again. */
  predicate Answers(text: string, message: seq<byte>) {
    text == Base64.Encoded(false, DigestOf(message)) && |text| >= 2 && Base64.Decode(text) == DigestOf(message)
  }

  method HashedText(message: seq<byte>) returns (text: string)
    ensures |message| < 0x2000_0000 ==> Answers(text, message)
  {
    var digest := Sha1Of(message);
    text := EncodeStandard(digest);
    if |message| < 0x2000_0000 {
      Base64.RoundTrip(DigestOf(message), false);
    }
  }

  /** Sec-WebSocket-Accept: base64 of the digest of the client's key and the GUID. */
  method AcceptKey(key: seq<byte>) returns (text: string)
    ensures |key + GUID| < 0x2000_0000 ==> Answers(text, key + GUID)
  {
    text := HashedText(key + GUID);
  }
}
