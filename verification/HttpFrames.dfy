/** The frames both HTTP codecs produce. */
module HttpFrames {
  import opened Common

  datatype HttpPhase = RequestLine | StatusLine | Header | EndOfHeaders | Body | Trailer

  datatype HttpFrame = HttpFrame(data: Bytes, phase: HttpPhase, routing: bool) {
    /** The request line is the routing frame; its bytes are the key. */
    function RoutingKey(): Option<Bytes> {
      if routing then Some(data) else None
    }
  }

  function RequestLineFrame(line: Bytes): HttpFrame {
    HttpFrame(line, RequestLine, true)
  }

  function StatusLineFrame(line: Bytes): HttpFrame {
    HttpFrame(line, StatusLine, false)
  }

  function HeaderFrame(line: Bytes): HttpFrame {
    HttpFrame(line, Header, false)
  }

  const END_OF_HEADERS := HttpFrame(CRLF, EndOfHeaders, false)

  function FrameBytes(frames: seq<HttpFrame>): Bytes {
    if frames == [] then [] else frames[0].data + FrameBytes(frames[1..])
  }

  lemma {:induction false} FrameBytesAppend(a: seq<HttpFrame>, b: seq<HttpFrame>)
    ensures FrameBytes(a + b) == FrameBytes(a) + FrameBytes(b)
  {
    if a == [] {
      assert a + b == b;
    } else {
      assert (a + b)[1..] == a[1..] + b;
      FrameBytesAppend(a[1..], b);
    }
  }
}
