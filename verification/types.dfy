/**
 * Identifier and sample types shared by the whole model, with the
 * Option/Result wrappers that stand for Rust's Option and Result.
 */
module Types {

  datatype Option<+T> = None | Some(value: T)

  datatype Result<+T, +E> = Ok(value: T) | Err(error: E)

  /** One past the largest value of a Rust `u64`. */
  const U64Limit: nat := 0x1_0000_0000_0000_0000

  /** A Rust `u64`. */
  type U64 = x: nat | x < 0x1_0000_0000_0000_0000

  /** A twilight `Id<_>`: a non-zero `u64` (`Id::new(0)` panics). */
  type Snowflake = x: nat | 0 < x < 0x1_0000_0000_0000_0000 witness 1

  type UserId = Snowflake
  type GuildId = Snowflake
  type ChannelId = Snowflake
  type MessageId = Snowflake

  /** The RTP synchronisation source of a voice stream, a Rust `u32`. */
  type Ssrc = x: nat | x < 0x1_0000_0000

  /** A 16-bit signed PCM sample. */
  newtype i16 = x: int | -0x8000 <= x < 0x8000

  /** A wall-clock instant, in milliseconds. */
  type Millis = int

  /**
   * What songbird's `EventContext` carries to a voice event handler:
   * a speaking-state update (the user id is a raw `u64` that the handler
   * turns into an `Id`), a voice tick listing, per SSRC, the decoded audio
   * if any, a client disconnect, or any other event.
   */
  datatype VoiceEvent =
    | SpeakingStateUpdate(ssrc: Ssrc, userId: Option<U64>)
    | VoiceTick(speaking: seq<TickEntry>)
    | ClientDisconnect(disconnected: U64)
    | OtherEvent

  /** One entry of `tick.speaking`: an SSRC and its `decoded_voice`. */
  datatype TickEntry = TickEntry(ssrc: Ssrc, decodedVoice: Option<seq<i16>>)

  /** No element occurs twice. */
  predicate Distinct<T(==)>(xs: seq<T>)
  {
    forall i, j :: 0 <= i < j < |xs| ==> xs[i] != xs[j]
  }

  /** The set of elements of a sequence. */
  function Elements<T>(xs: seq<T>): set<T>
  {
    set i | 0 <= i < |xs| :: xs[i]
  }

  lemma ElementsAppend<T>(xs: seq<T>, x: T)
    ensures Elements(xs + [x]) == Elements(xs) + {x}
  {
    var ys := xs + [x];
    forall y | y in Elements(ys) ensures y in Elements(xs) + {x} {
      var i :| 0 <= i < |ys| && ys[i] == y;
      if i < |xs| { assert xs[i] == y; }
    }
    forall y | y in Elements(xs) ensures y in Elements(ys) {
      var i :| 0 <= i < |xs| && xs[i] == y;
      assert ys[i] == y;
    }
    assert ys[|xs|] == x;
  }

  /** Sum of the lengths of a sequence of sample chunks. */
  function TotalLength<T>(chunks: seq<seq<T>>): nat
  {
    if chunks == [] then 0 else TotalLength(chunks[..|chunks| - 1]) + |chunks[|chunks| - 1]|
  }

  /** The concatenation of a sequence of sample chunks, in order. */
  function Flatten<T>(chunks: seq<seq<T>>): seq<T>
  {
    if chunks == [] then [] else Flatten(chunks[..|chunks| - 1]) + chunks[|chunks| - 1]
  }

  /** Only the empty sequence has no elements. */
  lemma ElementsEmpty<T>(xs: seq<T>)
    ensures Elements(xs) == {} <==> xs == []
  {
    if xs != [] {
      assert xs[0] in Elements(xs);
    }
  }

  /** Flattening one more chunk appends that chunk. */
  lemma FlattenSnoc<T>(chunks: seq<seq<T>>, x: seq<T>)
    ensures Flatten(chunks + [x]) == Flatten(chunks) + x
  {
    assert (chunks + [x])[..|chunks|] == chunks;
  }

  lemma {:induction false} FlattenLength<T>(chunks: seq<seq<T>>)
    ensures |Flatten(chunks)| == TotalLength(chunks)
  {
    if chunks != [] {
      FlattenLength(chunks[..|chunks| - 1]);
    }
  }
}
