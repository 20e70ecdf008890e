/** The replay weather rewriter. A replay starts with a 16-byte header whose
    byte 12 holds the length of the weather name that follows the header; the
    rewriter copies the header, writes the new length and name, then copies
    every byte after the old name. */
module ChangeWeather {
  import opened Wrappers
  import opened Bytes

  /** Offset of the single byte holding the weather name's length. */
  const WeatherLenOffset: nat := 12
  /** Offset at which the weather name starts. */
  const WeatherOffset: nat := 16

  /** Reading the header failed because the input ended too early (read_exact). */
  datatype ReplayError = UnexpectedEof

  /** The weather length stored in the replay header. */
  function ExistingWeatherLen(replay: seq<Byte>): (r: Result<nat, ReplayError>)
    ensures r.Success? <==> |replay| > WeatherLenOffset
    ensures r.Success? ==> r.value < 256 && r.value == replay[WeatherLenOffset] as nat
  {
    if |replay| <= WeatherLenOffset then Failure(UnexpectedEof)
    else Success(replay[WeatherLenOffset] as nat)
  }

  /** The length written for a new weather name: its byte count cast to u8. */
  function LengthByte(weather: seq<Byte>): Byte {
    (|weather| % 256) as Byte
  }

  /** The frames: everything after the old weather name. Seeking past the end
      of the file is allowed and then reads nothing. */
  function Frames(replay: seq<Byte>, oldLen: nat): (r: seq<Byte>)
    ensures WeatherOffset + oldLen <= |replay| ==> r == replay[WeatherOffset + oldLen..]
    ensures WeatherOffset + oldLen > |replay| ==> r == []
  {
    if WeatherOffset + oldLen <= |replay| then replay[WeatherOffset + oldLen..] else []
  }

  /** The whole rewrite: header, new length byte, rest of header, new name, frames. */
  function RewriteWeather(replay: seq<Byte>, weather: seq<Byte>): (r: Result<seq<Byte>, ReplayError>)
    ensures r.Success? <==> |replay| >= WeatherOffset
    ensures r.Success? ==>
      var out := r.value;
      && |out| >= WeatherOffset + |weather|
      && out[..WeatherLenOffset] == replay[..WeatherLenOffset]
      && out[WeatherLenOffset] == LengthByte(weather)
      && out[WeatherLenOffset + 1..WeatherOffset] == replay[WeatherLenOffset + 1..WeatherOffset]
      && out[WeatherOffset..WeatherOffset + |weather|] == weather
      && out[WeatherOffset + |weather|..] == Frames(replay, replay[WeatherLenOffset] as nat)
  {
    var oldLen :- ExistingWeatherLen(replay);
    if |replay| < WeatherOffset then Failure(UnexpectedEof)
    else
      var header := replay[..WeatherLenOffset] + [LengthByte(weather)]
                    + replay[WeatherLenOffset + 1..WeatherOffset];
      Success(header + weather + Frames(replay, oldLen))
  }

  /** Reads the weather name back out of a replay, as the simulator would. */
  function ReadWeather(replay: seq<Byte>): (r: Option<seq<Byte>>)
    ensures r.Some? <==> |replay| >= WeatherOffset && WeatherOffset + replay[WeatherLenOffset] as nat <= |replay|
    ensures r.Some? ==> |r.value| == replay[WeatherLenOffset] as nat
    ensures r.Some? ==> forall k :: 0 <= k < |r.value| ==> r.value[k] == replay[WeatherOffset + k]
  {
    if |replay| < WeatherOffset || WeatherOffset + replay[WeatherLenOffset] as nat > |replay| then None
    else Some(replay[WeatherOffset..WeatherOffset + replay[WeatherLenOffset] as nat])
  }

  /** A name of at most 255 bytes can be read back; the frames are carried over. */
  lemma RewriteThenRead(replay: seq<Byte>, weather: seq<Byte>)
    requires |replay| >= WeatherOffset && |weather| <= 255
    ensures RewriteWeather(replay, weather).Success?
    ensures ReadWeather(RewriteWeather(replay, weather).value) == Some(weather)
    ensures Frames(RewriteWeather(replay, weather).value, |weather|)
         == Frames(replay, replay[WeatherLenOffset] as nat)
  {
    var out := RewriteWeather(replay, weather).value;
    assert LengthByte(weather) as nat == |weather|;
    assert out[WeatherOffset + |weather|..] == Frames(out, |weather|);
  }

  /** The output length when the input holds its whole old name, whatever the
      new name's length. */
  lemma RewriteLength(replay: seq<Byte>, weather: seq<Byte>)
    requires |replay| >= WeatherOffset && |replay| >= WeatherOffset + replay[WeatherLenOffset] as nat
    ensures RewriteWeather(replay, weather).Success?
    ensures |RewriteWeather(replay, weather).value|
         == |replay| - replay[WeatherLenOffset] as nat + |weather|
  {
  }

  /** Rewriting with the weather already present returns the input unchanged. */
  lemma RewriteSameWeather(replay: seq<Byte>, weather: seq<Byte>)
    requires ReadWeather(replay) == Some(weather)
    ensures RewriteWeather(replay, weather) == Success(replay)
  {
    var n := |weather|;
    var out := RewriteWeather(replay, weather).value;
    var head := replay[..WeatherLenOffset];
    var mid := replay[WeatherLenOffset + 1..WeatherOffset];
    var tail := replay[WeatherOffset + n..];
    assert out == head + [LengthByte(weather)] + mid + weather + Frames(replay, n);
    assert LengthByte(weather) == replay[WeatherLenOffset];
    assert Frames(replay, n) == tail;
    assert weather == replay[WeatherOffset..WeatherOffset + n];
    assert replay == head + [replay[WeatherLenOffset]] + mid + replay[WeatherOffset..WeatherOffset + n] + tail;
  }

  /** Rewriting twice is rewriting once with the second name, provided the first fits a byte. */
  lemma RewriteTwice(replay: seq<Byte>, first: seq<Byte>, second: seq<Byte>)
    requires |replay| >= WeatherOffset && |first| <= 255
    ensures RewriteWeather(replay, first).Success?
    ensures RewriteWeather(RewriteWeather(replay, first).value, second) == RewriteWeather(replay, second)
  {
    var mid := RewriteWeather(replay, first).value;
    RewriteThenRead(replay, first);
    assert mid[WeatherLenOffset] as nat == |first|;
    assert Frames(mid, mid[WeatherLenOffset] as nat) == Frames(replay, replay[WeatherLenOffset] as nat);
  }
}
