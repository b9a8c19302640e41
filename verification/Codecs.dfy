/** Chunking invariance of the framing codecs: TCP may cut the stream anywhere. */
module Codecs {
  import opened Core
  import opened Framing
  import Delimiter
  import LengthField
  import Line
  import MqttFrames
  import Search
  import Utf8
  import WebSocketFrames

  lemma MqttIgnoresReadBoundaries(maxPacketSize: nat)
    ensures IgnoresReadBoundaries(MqttFrames.MqttDecoder(maxPacketSize))
  {
    MqttFrames.MqttIsStable(maxPacketSize);
    StableDecodersIgnoreReadBoundaries(MqttFrames.MqttDecoder(maxPacketSize));
  }

  lemma WebSocketIgnoresReadBoundaries(maxFrameLen: nat, requireMask: bool)
    ensures IgnoresReadBoundaries(WebSocketFrames.WsDecoder(maxFrameLen, requireMask))
  {
    WebSocketFrames.WsIsStable(maxFrameLen, requireMask);
    StableDecodersIgnoreReadBoundaries(WebSocketFrames.WsDecoder(maxFrameLen, requireMask));
  }

  lemma LengthFieldIgnoresReadBoundaries(c: LengthField.Config)
    ensures IgnoresReadBoundaries(LengthField.LengthFieldDecoder(c))
  {
    LengthField.LengthFieldIsStable(c);
    StableDecodersIgnoreReadBoundaries(LengthField.LengthFieldDecoder(c));
  }

  lemma LinesIgnoreReadBoundaries(maxLineLen: nat)
    ensures IgnoresReadBoundaries(Line.LineDecoder(maxLineLen))
  {
    Line.LineIsStable(maxLineLen);
    StableDecodersIgnoreReadBoundaries(Line.LineDecoder(maxLineLen));
  }

  lemma OneByteDelimitersIgnoreReadBoundaries(c: Delimiter.Config)
    requires forall d :: d in c.delimiters ==> |d| == 1
    ensures IgnoresReadBoundaries(Delimiter.DelimiterDecoder(c))
  {
    Delimiter.OneByteDelimitersAreStable(c);
    StableDecodersIgnoreReadBoundaries(Delimiter.DelimiterDecoder(c));
  }

  /** The buffer limit is compared with everything buffered, complete frames included: two lines of two bytes pass
      under a limit of two bytes when each has its own read, and are refused when they share one. */
  lemma FrameLimitCountsWholeBuffer()
    ensures Progress(Line.LineDecoder(10))
    ensures var one: seq<byte>, two: seq<byte> := [0x61, 0x0a], [0x62, 0x0a];
            && Feed(Line.LineDecoder(10), 2, [], [one, two]) == Fed([[0x61], [0x62]], [], None, false, [])
            && Feed(Line.LineDecoder(10), 2, [], [one + two]) == Fed([], one + two, Some(FrameTooLarge), true, [])
  {
    Line.LineIsStable(10);
    var d := Line.LineDecoder(10);
    OneLine(d, 0x61);
    OneLine(d, 0x62);
    hide DecodeAll, Line.DecodeFrame;
    var one: seq<byte>, two: seq<byte> := [0x61, 0x0a], [0x62, 0x0a];
    assert [] + one == one && [] + two == two && [] + (one + two) == one + two;
    var chunks: seq<seq<byte>> := [one, two];
    assert chunks[1..] == [two] && chunks[1..][1..] == [];
    assert Feed(d, 2, [], chunks[1..][1..]) == Fed([], [], None, false, []);
    assert Feed(d, 2, [], chunks[1..]) == Fed([[0x62]], [], None, false, []);
    assert [one + two][1..] == [];
  }

  lemma OneLine(d: Decoder<Utf8.Text>, b: byte)
    requires d == Line.LineDecoder(10) && Progress(d) && 0x61 <= b < 0x80
    ensures DecodeAll(d, [b, 0x0a]) == Outcome([[b]], [], None)
  {
    var line: seq<byte> := [b];
    Utf8.AsciiIsValid(line);
    Line.LineOpens(10, line, []);
    assert (line + [Line.LF]) + [] == [b, 0x0a];
    assert [b, 0x0a][2..] == [];
    assert Search.Find([], [Line.LF], 0) == None;
    assert DecodeAll(d, []) == Outcome([], [], None);
  }
}
