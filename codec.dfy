/**
 * The text of a `<diagram>` element as draw.io stores it: the diagram's XML, UTF-8 encoded,
 * compressed with raw DEFLATE (RFC 1951, no zlib header), then Base64 encoded (section 4 of
 * RFC 4648). DEFLATE is a parameter: a compressor and an inflater, which may fail.
 */
module DiagramCodec {
  import opened Wrappers
  import opened Utf8
  import Base64

  datatype Deflater = Deflater(compress: seq<byte> -> seq<byte>, inflate: seq<byte> -> Option<seq<byte>>)

  /** Inflating what the compressor produced gives the bytes back. */
  ghost predicate RoundTrips(z: Deflater)
  {
    forall d :: z.inflate(z.compress(d)) == Some(d)
  }

  /**
   * Reading a payload: the text and true when it is Base64 of raw DEFLATE data (the inflated bytes
   * read as UTF-8, ill-formed bytes replaced), otherwise the payload itself and false.
   */
  function TryDecompress(z: Deflater, s: string): (r: (string, bool))
    ensures r.1 <==> Base64.Decode(s).Some? && z.inflate(Base64.Decode(s).value).Some?
    ensures r.1 ==> r.0 == Decode(z.inflate(Base64.Decode(s).value).value, Replace)
    ensures !r.1 ==> r.0 == s
  {
    match Base64.Decode(s)
    case None => (s, false)
    case Some(raw) =>
      match z.inflate(raw)
      case None => (s, false)
      case Some(bytes) => (Decode(bytes, Replace), true)
  }

  /** Writing a payload: the text's UTF-8 bytes compressed, then Base64 encoded. */
  function Compress(z: Deflater, s: string): (r: string)
    ensures Base64.Decode(r) == Some(z.compress(Encode(s)))
  {
    var r := Base64.Encode(z.compress(Encode(s)));
    Base64.DecodeEncode(z.compress(Encode(s)));
    r
  }

  /** A compressed payload reads back as the text it was made from, marked as compressed. */
  lemma DecompressCompress(z: Deflater, s: string)
    requires RoundTrips(z)
    ensures TryDecompress(z, Compress(z, s)) == (s, true)
  {
    var bytes := Encode(s);
    assert z.inflate(z.compress(bytes)) == Some(bytes);
    DecodeEncode(s, Replace);
  }

  /** A payload that is not Base64 at all (a character beyond ASCII) is taken as plain text. */
  lemma NonAsciiIsPlain(z: Deflater, s: string, i: nat)
    requires i < |s| && s[i] as int >= 128
    ensures TryDecompress(z, s) == (s, false)
  {
  }
}
