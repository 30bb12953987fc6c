/** The incremental frame collector, one byte at a time, and the proof that it finds exactly
    the frame the reference definition finds, wherever it is suspended. */
module FrameCollector {
  import opened Words
  import opened Pn532Frames

  /** `frame` is empty while the collector hunts for a start code with `sync` zeros seen. */
  datatype Collector = Collector(sync: nat, frame: seq<byte>)

  const FRESH := Collector(0, [])

  datatype Fed = More(next: Collector) | Whole(frame: seq<byte>) | Overflow

  /** The length a partial frame announces, 0 while it announces none. */
  function ExpectedLength(f: seq<byte>): nat {
    if |f| >= 5 && !IsExtended(f) then DataLength(f) + 7
    else if |f| >= 7 then 0x100 * f[5] as int + f[6] as int + 10
    else 0
  }

  /** One turn of the collecting loop. */
  function Feed(c: Collector, value: byte): Fed {
    if c.frame == [] then
      var next := Hunt(c.sync, value);
      More(if next == 3 then Collector(c.sync, START) else Collector(next, []))
    else if |c.frame| >= MAX_FRAME then Overflow
    else
      var f := c.frame + [value];
      var n := ExpectedLength(f);
      if |f| == 6 && f[3] == 0x00 && f[4] == 0xFF && f[5] == 0x00 then Whole(f)
      else if n > MAX_FRAME then Overflow
      else if n != 0 && |f| == n then Whole(f)
      else More(Collector(c.sync, f))
  }

  datatype Collected =
    | Pending(state: Collector)
    | Complete(frame: seq<byte>, rest: seq<byte>)
    | TooLarge(rest: seq<byte>)

  function FeedAll(c: Collector, s: seq<byte>): Collected
    decreases |s|
  {
    if s == [] then Pending(c)
    else match Feed(c, s[0])
      case More(next) => FeedAll(next, s[1..])
      case Whole(frame) => Complete(frame, s[1..])
      case Overflow => TooLarge(s[1..])
  }

  lemma FeedAllStep(c: Collector, value: byte, rest: seq<byte>)
    ensures FeedAll(c, [value] + rest) ==
            var fed := Feed(c, value);
            if fed.More? then FeedAll(fed.next, rest)
            else if fed.Whole? then Complete(fed.frame, rest)
            else TooLarge(rest)
  {
  }

  /** Suspending the collector between two bytes changes nothing. */
  lemma {:induction false} FeedAllSplits(c: Collector, a: seq<byte>, b: seq<byte>)
    ensures FeedAll(c, a + b) ==
            match FeedAll(c, a)
            case Pending(next) => FeedAll(next, b)
            case Complete(frame, rest) => Complete(frame, rest + b)
            case TooLarge(rest) => TooLarge(rest + b)
    decreases |a|
  {
    if a == [] {
      assert a + b == b;
    } else {
      assert (a + b)[1..] == a[1..] + b;
      match Feed(c, a[0])
      case More(next) => FeedAllSplits(next, a[1..], b);
      case Whole(_) =>
      case Overflow =>
    }
  }

  /** What the collector calls whole has the length its own header declares, so a checksum
      test on it stays within the bytes collected. */
  lemma {:induction false} WholeFramesAreBounded(c: Collector, s: seq<byte>)
    ensures FeedAll(c, s).Complete? ==>
              var f := FeedAll(c, s).frame;
              6 <= |f| <= MAX_FRAME && (|f| >= 8 && LengthChecks(f) ==> DataLength(f) + 7 == |f|)
    decreases |s|
  {
    if s != [] && Feed(c, s[0]).More? {
      WholeFramesAreBounded(Feed(c, s[0]).next, s[1..]);
    }
  }

  // ----- Agreement with the reference definition -----

  function AsParse(c: Collected): Parse {
    match c
    case Pending(_) => Starved
    case Complete(frame, rest) => Found(frame, rest)
    case TooLarge(rest) => Oversize(rest)
  }

  /** A frame of which nothing yet says that it is complete or too large. */
  predicate Partial(f: seq<byte>) {
    3 <= |f| <= MAX_FRAME && f[..3] == START && ParseBody(f) == Starved
  }

  /** Bytes behind a header that declares its length do not change the declaration. */
  lemma HeaderDecides(f: seq<byte>, t: seq<byte>)
    ensures FrameLength(f) != 0 ==> FrameLength(f + t) == FrameLength(f)
  {
  }

  lemma {:induction false} BodyContinuesParse(sync: nat, f: seq<byte>, s: seq<byte>)
    requires Partial(f)
    ensures AsParse(FeedAll(Collector(sync, f), s)) == ParseBody(f + s)
    decreases |s|
  {
    if s == [] {
      assert f + s == f;
    } else {
      var g := f + [s[0]];
      assert f + s == g + s[1..];
      assert g[..3] == f[..3] && (g + s[1..])[..3] == g[..3];
      HeaderDecides(g, s[1..]);
      match Feed(Collector(sync, f), s[0])
      case More(next) =>
        BodyContinuesParse(sync, g, s[1..]);
      case Whole(_) =>
        assert (g + s[1..])[..|g|] == g && (g + s[1..])[|g|..] == s[1..];
      case Overflow =>
        assert (g + s[1..])[7..] == s[1..];
    }
  }

  lemma {:induction false} HuntContinuesParse(seen: seq<byte>, sync: nat, s: seq<byte>)
    requires Hunting(seen, sync)
    ensures AsParse(FeedAll(Collector(sync, []), s)) == ParseFrame(seen + s)
    decreases |s|
  {
    if s == [] {
      assert seen + s == seen;
      NoiseHoldsNoFrame(seen);
    } else {
      HuntIsExact(seen, sync, s[0]);
      assert seen + s == (seen + [s[0]]) + s[1..];
      if Hunt(sync, s[0]) == 3 {
        var skipped, t := seen[..|seen| - 2], START + s[1..];
        assert seen + s == skipped + t;
        assert t[0..3] == START;
        ParseBehindNoise(skipped, t);
        assert START[..3] == START;
        BodyContinuesParse(sync, START, s[1..]);
      } else {
        HuntContinuesParse(seen + [s[0]], Hunt(sync, s[0]), s[1..]);
      }
    }
  }

  /** The incremental parser refines the reference: from a fresh collector every stream
      gives the same frame, the same remainder and the same oversize verdict. */
  lemma CollectorRefinesParse(s: seq<byte>)
    ensures AsParse(FeedAll(FRESH, s)) == ParseFrame(s)
  {
    assert [] + s == s;
    HuntContinuesParse([], 0, s);
  }

  /** Collecting chunk by chunk until a chunk ends it. */
  function FeedChunks(c: Collector, chunks: seq<seq<byte>>): Collected
    decreases |chunks|
  {
    if chunks == [] then Pending(c)
    else match FeedAll(c, chunks[0])
      case Pending(next) => FeedChunks(next, chunks[1..])
      case Complete(frame, rest) => Complete(frame, rest + Join(chunks[1..]))
      case TooLarge(rest) => TooLarge(rest + Join(chunks[1..]))
  }

  function Join(chunks: seq<seq<byte>>): seq<byte>
    decreases |chunks|
  {
    if chunks == [] then [] else chunks[0] + Join(chunks[1..])
  }

  lemma {:induction false} ChunksJoin(c: Collector, chunks: seq<seq<byte>>)
    ensures FeedChunks(c, chunks) == FeedAll(c, Join(chunks))
    decreases |chunks|
  {
    if chunks != [] {
      FeedAllSplits(c, chunks[0], Join(chunks[1..]));
      if FeedAll(c, chunks[0]).Pending? {
        ChunksJoin(FeedAll(c, chunks[0]).state, chunks[1..]);
      }
    }
  }

  /** However a stream is cut into chunks, suspending after each, the collector delivers
      the frame and remainder of the uncut stream. */
  lemma ChunkingIsInvisible(chunks: seq<seq<byte>>)
    ensures AsParse(FeedChunks(FRESH, chunks)) == ParseFrame(Join(chunks))
  {
    ChunksJoin(FRESH, chunks);
    CollectorRefinesParse(Join(chunks));
  }
}
