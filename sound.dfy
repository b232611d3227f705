/** The bookkeeping of the AudioDriver (src/sound.cc, src/sound.h): a table of
    MAX_STREAMS playback slots, the list of loaded sounds, and the counter that hands
    out stream handles. Mixing and format conversion are not modelled. */
module Sound {
  import opened Wrappers

  const MaxStreams: nat := 32

  /** 2^64: an int compared with a size_t is converted to size_t first. */
  const SizeModulus: int := 0x1_0000_0000_0000_0000

  /** A loaded sound; valid is false when loading the file failed. */
  datatype SoundObject = SoundObject(valid: bool)

  /** One playback slot (an AudioStream). sound is the 0-based index of the sound it
      plays, None while the slot has never been used. */
  datatype Stream = Stream(sound: Option<nat>, playing: bool, pos: real, rate: real,
                           looping: bool, index: int)

  /** A slot as initialize leaves it: not playing. The AudioStream constructor
      sets only playing; the sound, position, rate, looping flag and handle are left
      as they were, so None and zeros here are a modelling choice. Nothing reads them
      while the slot is not playing and holds no sound. */
  const IdleStream: Stream := Stream(None, false, 0.0, 0.0, false, 0)

  predicate IsInt32(i: int) {
    -0x8000_0000 <= i < 0x8000_0000
  }

  /** The value of an int converted to size_t. */
  function AsSize(i: int): (r: int)
    requires IsInt32(i)
    ensures 0 <= r < SizeModulus
  {
    if i < 0 then i + SizeModulus else i
  }

  /** The sound-id check of play_sound_object, as written: after the decrement, reject
      -1 and anything not below the sound count (an unsigned comparison). */
  predicate IdRejected(i: int, count: nat)
    requires IsInt32(i) && -0x8000_0000 < i
  {
    i - 1 == -1 || AsSize(i - 1) >= count
  }

  /** The lowest slot that is not playing, or -1 when all are. */
  function FirstFree(s: seq<Stream>): (r: int)
    ensures -1 <= r < |s|
    ensures r == -1 <==> forall x | 0 <= x < |s| :: s[x].playing
    ensures r != -1 ==> !s[r].playing && forall x | 0 <= x < r :: s[x].playing
  {
    if |s| == 0 then -1
    else if !s[0].playing then 0
    else
      var r := FirstFree(s[1..]);
      if r == -1 then -1 else r + 1
  }

  /** The slot table after stop_stream(h). */
  function Stopped(s: seq<Stream>, h: int): (r: seq<Stream>)
    ensures |r| == |s|
    ensures forall x | 0 <= x < |s| :: r[x] == if s[x].index == h then s[x].(playing := false) else s[x]
  {
    seq(|s|, x requires 0 <= x < |s| => if s[x].index == h then s[x].(playing := false) else s[x])
  }

  class AudioDriver {
    var loaded: bool
    var formatFreq: int
    var streamindex: int
    var sounds: seq<SoundObject>
    const streams: array<Stream>

    /** Every slot that has been used plays a loaded sound under a handle already
        handed out, and no two used slots share a handle. */
    ghost predicate Valid()
      reads this, streams
    {
      && streams.Length == MaxStreams
      && 1 <= streamindex
      && |sounds| < SizeModulus / 2
      && (forall x | 0 <= x < MaxStreams && streams[x].sound.Some? ::
            1 <= streams[x].index < streamindex && streams[x].sound.value < |sounds|)
      && (forall x, y | 0 <= x < y < MaxStreams && streams[x].sound.Some? && streams[y].sound.Some? ::
            streams[x].index != streams[y].index)
    }

    /** The global driver before initialize: the slot table exists, nothing is loaded. */
    constructor ()
      ensures streams.Length == MaxStreams && fresh(streams) && sounds == []
    {
      loaded := false;
      formatFreq := 0;
      streamindex := 0;
      sounds := [];
      streams := new Stream[MaxStreams](_ => IdleStream);
    }

    /** initialize: the driver marked not loaded, no format, handles start at 1,
        every slot a fresh idle stream; the sounds already loaded stay. */
    method Initialize()
      requires streams.Length == MaxStreams
      requires |sounds| < SizeModulus / 2
      modifies this, streams
      ensures Valid()
      ensures !loaded && formatFreq == 0 && streamindex == 1 && sounds == old(sounds)
      ensures forall x | 0 <= x < MaxStreams :: streams[x] == IdleStream
    {
      loaded := false;
      formatFreq := 0;
      streamindex := 1;
      var x := 0;
      while x < MaxStreams
        invariant 0 <= x <= MaxStreams
        invariant forall y | 0 <= y < x :: streams[y] == IdleStream
        invariant !loaded && formatFreq == 0 && streamindex == 1 && sounds == old(sounds)
      {
        streams[x] := IdleStream;
        x := x + 1;
      }
    }

    /** get_free_stream: the lowest slot that is not playing, or -1. */
    method GetFreeStream() returns (r: int)
      requires Valid()
      ensures r == FirstFree(streams[..])
      ensures -1 <= r < MaxStreams
    {
      var x := 0;
      while x < MaxStreams
        invariant 0 <= x <= MaxStreams
        invariant forall y | 0 <= y < x :: streams[y].playing
      {
        if !streams[x].playing {
          FirstFreeIsLowest(streams[..], x);
          return x;
        }
        x := x + 1;
      }
      FirstFreeNone(streams[..]);
      return -1;
    }

    /** play_sound_object(i, looping, rate): start sound i (1-based) in the lowest free
        slot and return its new handle, or -1 without changing anything. */
    method PlaySoundObject(i: int, looping: bool, rate: real) returns (h: int)
      requires Valid()
      requires IsInt32(i) && -0x8000_0000 < i
      modifies this`streamindex, streams
      ensures Valid()
      ensures var free := FirstFree(old(streams[..]));
        h == -1 <==> free == -1 || IdRejected(i, |sounds|) || !sounds[i - 1].valid
      ensures h == -1 ==> streams[..] == old(streams[..]) && streamindex == old(streamindex)
      ensures h != -1 ==>
        && h == old(streamindex) && streamindex == old(streamindex) + 1
        && var free := FirstFree(old(streams[..]));
           streams[..] == old(streams[..])[free := Stream(Some(i - 1), true, 0.0, rate, looping, h)]
    {
      var stream := GetFreeStream();
      if stream == -1 {
        return -1;
      }
      var k := i - 1;
      if k == -1 || AsSize(k) >= |sounds| {
        return -1;
      }
      if !sounds[k].valid {
        return -1;
      }
      streams[stream] := Stream(Some(k), true, 0.0, rate, looping, streamindex);
      streamindex := streamindex + 1;
      h := streams[stream].index;
    }

    /** stop_stream(h): clear playing on every slot whose handle is h. */
    method StopStream(h: int)
      requires Valid()
      modifies streams
      ensures Valid()
      ensures streams[..] == Stopped(old(streams[..]), h)
    {
      var x := 0;
      while x < MaxStreams
        invariant 0 <= x <= MaxStreams
        invariant forall y | 0 <= y < x :: streams[y] == Stopped(old(streams[..]), h)[y]
        invariant forall y | x <= y < MaxStreams :: streams[y] == old(streams[y])
      {
        if streams[x].index == h {
          streams[x] := streams[x].(playing := false);
        }
        x := x + 1;
      }
    }

    /** load_sound_from_file: append the sound (valid when the file loaded) and return
        the new count, which is its 1-based id. */
    method LoadSoundFromFile(fileLoaded: bool) returns (id: int)
      requires Valid() && |sounds| + 1 < SizeModulus / 2
      modifies this`sounds
      ensures Valid()
      ensures sounds == old(sounds) + [SoundObject(fileLoaded)]
      ensures id == |sounds| && sounds[id - 1] == SoundObject(fileLoaded)
    {
      sounds := sounds + [SoundObject(fileLoaded)];
      id := |sounds|;
    }
  }

  // ---------------------------------------------------------------------------
  // Lemmas

  lemma {:induction false} FirstFreeIsLowest(s: seq<Stream>, x: nat)
    requires x < |s| && !s[x].playing
    requires forall y | 0 <= y < x :: s[y].playing
    ensures FirstFree(s) == x
  {
    if x > 0 {
      FirstFreeIsLowest(s[1..], x - 1);
    }
  }

  lemma FirstFreeNone(s: seq<Stream>)
    requires forall y | 0 <= y < |s| :: s[y].playing
    ensures FirstFree(s) == -1
  {
  }

  /** The id check rejects exactly the ids outside 1..count: 0 by the explicit test,
      negative ids because they wrap to huge unsigned values. */
  lemma IdRejectedExactly(i: int, count: nat)
    requires IsInt32(i) && -0x8000_0000 < i && count < 0x8000_0000_0000_0000
    ensures IdRejected(i, count) <==> !(1 <= i <= count)
  {
  }

  /** Handles are unique among used slots, so stop_stream stops at most one of them:
      every other used slot keeps playing as it was. */
  lemma {:induction false} StopStreamStopsOne(s: seq<Stream>, h: int, x: nat)
    requires |s| == MaxStreams && x < MaxStreams && s[x].sound.Some? && s[x].index == h
    requires forall a, b | 0 <= a < b < MaxStreams && s[a].sound.Some? && s[b].sound.Some? ::
               s[a].index != s[b].index
    ensures forall y | 0 <= y < MaxStreams && y != x && s[y].sound.Some? :: Stopped(s, h)[y] == s[y]
  {
    forall y | 0 <= y < MaxStreams && y != x && s[y].sound.Some?
      ensures Stopped(s, h)[y] == s[y]
    {
      if y < x {
        assert s[y].index != s[x].index;
      } else {
        assert s[x].index != s[y].index;
      }
    }
  }

  /** A handle that was never handed out names no used slot, so stopping it leaves
      every used slot alone. */
  lemma StopUnknownHandle(s: seq<Stream>, h: int, next: int)
    requires forall x | 0 <= x < |s| && s[x].sound.Some? :: 1 <= s[x].index < next
    requires h >= next || h < 1
    ensures forall x | 0 <= x < |s| && s[x].sound.Some? :: Stopped(s, h)[x] == s[x]
  {
  }
}
