/** The PN532 frame language (section 6.2.1 of UM0701-02): what a frame is, where in a byte
    stream the first one lies, how one is built, and what a command's response carries. */
module Pn532Frames {
  import opened Words

  const MAX_FRAME := 1100
  const START: seq<byte> := [0x00, 0x00, 0xFF]
  const ACK: seq<byte> := [0x00, 0x00, 0xFF, 0x00, 0xFF, 0x00]
  const HOST: byte := 0xD4
  const CHIP: byte := 0xD5
  const MAX_DATA := 253

  // ----- Finding a frame in a stream: the reference definition -----

  ghost predicate StartsAt(s: seq<byte>, p: nat) {
    p + 3 <= |s| && s[p..p + 3] == START
  }

  /** No start code lies wholly within `s`. */
  ghost predicate Noise(s: seq<byte>) {
    forall p: nat :: !StartsAt(s, p)
  }

  predicate IsExtended(f: seq<byte>) {
    |f| >= 5 && f[3] == 0xFF && f[4] == 0xFF
  }

  /** The length byte of a normal frame. */
  function DataLength(f: seq<byte>): nat
    requires |f| >= 4
  {
    f[3]
  }

  /** Whether the length byte and its checksum cancel. */
  predicate LengthChecks(f: seq<byte>) {
    |f| >= 5 && Low8(f[3] as int + f[4] as int) == 0
  }

  /** How many bytes the frame beginning at the front of `s` has, once enough of it is
      there to tell; 0 until then. */
  function FrameLength(s: seq<byte>): nat {
    if |s| < 6 then 0
    else if s[3] == 0x00 && s[4] == 0xFF && s[5] == 0x00 then 6
    else if !IsExtended(s) then DataLength(s) + 7
    else if |s| < 7 then 0
    else 0x100 * s[5] as int + s[6] as int + 10
  }

  /** What a stream holds: a first frame and the bytes behind it, a first frame whose
      declared length no buffer takes, or not yet a whole frame. */
  datatype Parse =
    | Starved
    | Oversize(rest: seq<byte>)
    | Found(frame: seq<byte>, rest: seq<byte>)

  function ParseBody(s: seq<byte>): Parse {
    var n := FrameLength(s);
    if n == 0 then Starved
    else if n > MAX_FRAME then Oversize(if |s| >= 7 then s[7..] else [])
    else if |s| < n then Starved
    else Found(s[..n], s[n..])
  }

  function ParseFrame(s: seq<byte>): Parse
    decreases |s|
  {
    if |s| < 3 then Starved
    else if s[..3] == START then ParseBody(s)
    else ParseFrame(s[1..])
  }

  /** The frame found is the one at the first start code of the stream: everything before
      it is noise, and a stream without a frame or an oversize one has been read right. */
  lemma {:induction false} ParseFindsFirstStart(s: seq<byte>, p: nat)
    requires StartsAt(s, p) && forall q: nat :: q < p ==> !StartsAt(s, q)
    ensures ParseFrame(s) == ParseBody(s[p..])
    decreases p
  {
    if p > 0 {
      assert !StartsAt(s, 0);
      forall q: nat | q < p - 1 ensures !StartsAt(s[1..], q) {
        assert !StartsAt(s, q + 1);
        assert q + 3 <= |s[1..]| ==> s[1..][q..q + 3] == s[q + 1..q + 4];
      }
      assert s[1..][p - 1..p + 2] == s[p..p + 3];
      ParseFindsFirstStart(s[1..], p - 1);
      assert s[1..][p - 1..] == s[p..];
    }
  }

  /** A first frame is oversize exactly if its header declares more than 1100 bytes, and found
      exactly if it declares no more and all of them are there. */
  lemma DeclaredLengthDecides(s: seq<byte>, p: nat)
    requires StartsAt(s, p) && forall q: nat :: q < p ==> !StartsAt(s, q)
    ensures var n := FrameLength(s[p..]);
            && (ParseFrame(s).Oversize? <==> n > 1100)
            && (ParseFrame(s).Found? <==> 0 < n <= 1100 && n <= |s| - p)
  {
    ParseFindsFirstStart(s, p);
  }

  lemma {:induction false} NoiseHoldsNoFrame(s: seq<byte>)
    requires Noise(s)
    ensures ParseFrame(s) == Starved
    decreases |s|
  {
    if |s| >= 3 {
      assert !StartsAt(s, 0);
      forall p: nat ensures !StartsAt(s[1..], p) {
        assert !StartsAt(s, p + 1);
        assert p + 3 <= |s[1..]| ==> s[1..][p..p + 3] == s[p + 1..p + 4];
      }
      NoiseHoldsNoFrame(s[1..]);
    }
  }

  /** A start code that follows noise is the first one: its 0xFF cannot be shared with the
      noise, whatever zeros the noise ends in. */
  lemma StartAfterNoiseIsFirst(noise: seq<byte>, s: seq<byte>)
    requires Noise(noise) && StartsAt(s, 0)
    ensures StartsAt(noise + s, |noise|)
    ensures forall q: nat :: q < |noise| ==> !StartsAt(noise + s, q)
  {
    var t := noise + s;
    assert t[|noise|..|noise| + 3] == s[..3] == s[0..3];
    assert s[0] == s[0..3][0] && s[1] == s[0..3][1];
    forall q: nat | q < |noise| ensures !StartsAt(t, q) {
      if q + 3 <= |noise| {
        assert t[q..q + 3] == noise[q..q + 3];
        assert !StartsAt(noise, q);
      } else {
        assert t[q + 2] == s[q + 2 - |noise|] == 0x00;
        assert t[q..q + 3][2] == t[q + 2];
      }
    }
  }

  /** So the parse of noise, a start code and more is the parse of the frame there. */
  lemma ParseBehindNoise(noise: seq<byte>, s: seq<byte>)
    requires Noise(noise) && StartsAt(s, 0)
    ensures ParseFrame(noise + s) == ParseBody(s)
  {
    StartAfterNoiseIsFirst(noise, s);
    ParseFindsFirstStart(noise + s, |noise|);
    assert (noise + s)[|noise|..] == s;
  }

  // ----- The start-code automaton -----

  /** The automaton both parsers run while they hunt: the number of zeros seen, capped at
      two, or 3 once the start code is complete. */
  function Hunt(sync: nat, value: byte): nat {
    if sync == 0 then (if value == 0x00 then 1 else 0)
    else if sync == 1 then (if value == 0x00 then 2 else 0)
    else if value == 0xFF then 3
    else if value == 0x00 then 2 else 0
  }

  /** `sync` counts the zeros that `seen`, which holds no start code, ends in. */
  ghost predicate Hunting(seen: seq<byte>, sync: nat) {
    && Noise(seen)
    && sync <= 2 && sync <= |seen|
    && (sync >= 1 ==> seen[|seen| - 1] == 0x00)
    && (sync == 2 ==> seen[|seen| - 2] == 0x00)
    && (sync == 0 && |seen| >= 1 ==> seen[|seen| - 1] != 0x00)
    && (sync == 1 && |seen| >= 2 ==> seen[|seen| - 2] != 0x00)
  }

  /** The automaton is exact: it stops on the last byte of the first start code of the
      stream and on no other byte. */
  lemma HuntIsExact(seen: seq<byte>, sync: nat, value: byte)
    requires Hunting(seen, sync)
    ensures var next := Hunt(sync, value);
            if next == 3
            then |seen| >= 2 && seen + [value] == seen[..|seen| - 2] + START && Noise(seen[..|seen| - 2])
            else Hunting(seen + [value], next)
  {
    var t := seen + [value];
    if Hunt(sync, value) == 3 {
      var skipped := seen[..|seen| - 2];
      assert seen == skipped + [0x00, 0x00];
      forall p: nat ensures !StartsAt(skipped, p) {
        assert !StartsAt(seen, p);
        assert p + 3 <= |skipped| ==> skipped[p..p + 3] == seen[p..p + 3];
      }
    } else {
      forall p: nat ensures !StartsAt(t, p) {
        assert !StartsAt(seen, p);
        if p + 3 <= |seen| {
          assert t[p..p + 3] == seen[p..p + 3];
        } else if p + 3 == |t| {
          assert t[p..p + 3] == [t[p], t[p + 1], t[p + 2]];
        }
      }
    }
  }

  /** How many bytes of `s` the automaton takes before it stops; 0 if it never does. */
  function Stop(sync: nat, s: seq<byte>): nat
    decreases |s|
  {
    if s == [] then 0
    else
      var next := Hunt(sync, s[0]);
      if next == 3 then 1
      else
        var more := Stop(next, s[1..]);
        if more == 0 then 0 else more + 1
  }

  /** Over any stream the automaton stops exactly behind the first start code, and never
      exactly if there is none. */
  lemma HuntFindsFirstStart(s: seq<byte>)
    ensures var k := Stop(0, s);
            && (k == 0 <==> Noise(s))
            && (k > 0 ==> k >= 3 && StartsAt(s, k - 3) && forall q: nat :: q < k - 3 ==> !StartsAt(s, q))
  {
    StopsBehindFirstStart([], 0, s);
    assert [] + s == s;
  }

  lemma StartIsCompleted(seen: seq<byte>, s: seq<byte>)
    requires s != [] && |seen| >= 2 && seen + [s[0]] == seen[..|seen| - 2] + START && Noise(seen[..|seen| - 2])
    ensures StartsAt(seen + s, |seen| - 2) && forall q: nat :: q < |seen| - 2 ==> !StartsAt(seen + s, q)
  {
    var noise := seen[..|seen| - 2];
    assert seen + s == seen + [s[0]] + s[1..] == noise + (START + s[1..]);
    assert (START + s[1..])[0..3] == START;
    StartAfterNoiseIsFirst(noise, START + s[1..]);
  }

  lemma {:induction false} StopsBehindFirstStart(seen: seq<byte>, sync: nat, s: seq<byte>)
    requires Hunting(seen, sync)
    ensures var k, t := |seen| + Stop(sync, s), seen + s;
            if Stop(sync, s) == 0 then Noise(t)
            else k >= 3 && StartsAt(t, k - 3) && forall q: nat :: q < k - 3 ==> !StartsAt(t, q)
    decreases |s|
  {
    if s == [] {
      assert seen + s == seen;
    } else {
      HuntIsExact(seen, sync, s[0]);
      if Hunt(sync, s[0]) == 3 {
        StartIsCompleted(seen, s);
      } else {
        assert seen + s == seen + [s[0]] + s[1..];
        StopsBehindFirstStart(seen + [s[0]], Hunt(sync, s[0]), s[1..]);
      }
    }
  }

  // ----- Checksums -----

  function Sum8(s: seq<byte>): byte
    decreases |s|
  {
    if s == [] then 0 else Low8(Sum8(s[..|s| - 1]) as int + s[|s| - 1] as int)
  }

  lemma Sum8More(s: seq<byte>, x: byte)
    ensures Sum8(s + [x]) == Low8(Sum8(s) as int + x as int)
  {
    assert (s + [x])[..|s|] == s;
  }

  lemma Sum8Pair(a: byte, b: byte)
    ensures Sum8([a, b]) == Low8(a as int + b as int)
  {
    assert [a, b][..|[a, b]| - 1] == [a] && [a][..|[a]| - 1] == [];
    assert Sum8([a]) == a;
  }

  /** A normal frame whose length checksum, data checksum and postamble all hold. */
  predicate ValidNormal(f: seq<byte>) {
    && 8 <= |f|
    && DataLength(f) + 7 <= |f|
    && LengthChecks(f)
    && Sum8(f[5..6 + DataLength(f)]) == 0
    && f[6 + DataLength(f)] == 0
  }

  lemma ChecksDecide(f: seq<byte>, checksum: byte)
    requires 8 <= |f| && LengthChecks(f) && DataLength(f) + 7 <= |f| && checksum == Sum8(f[5..6 + DataLength(f)])
    ensures ValidNormal(f) <==> checksum == 0 && f[6 + DataLength(f)] == 0
  {
  }

  /** The check reads `frame` only below `length`: the precondition demands it of every
      frame whose length checksum lets the loop start. */
  method ValidateNormalFrame(frame: array<byte>, length: nat) returns (valid: bool)
    requires length <= frame.Length
    requires length >= 8 && LengthChecks(frame[..length]) ==> DataLength(frame[..length]) + 7 <= length
    ensures valid == ValidNormal(frame[..length])
  {
    if length < 8 {
      return false;
    }
    ghost var f := frame[..length];
    var dataLength: int := frame[3];
    if Low8(dataLength + frame[4] as int) != 0 {
      return false;
    }
    var checksum: byte := 0;
    for i := 5 to 5 + dataLength
      invariant checksum == Sum8(f[5..i])
    {
      SumStep(f, i);
      checksum := Low8(checksum as int + frame[i] as int);
    }
    SumStep(f, 5 + dataLength);
    checksum := Low8(checksum as int + frame[5 + dataLength] as int);
    ChecksDecide(f, checksum);
    return checksum == 0 && frame[6 + dataLength] == 0;
  }

  lemma SumStep(f: seq<byte>, i: nat)
    requires 5 <= i < |f|
    ensures Sum8(f[5..i + 1]) == Low8(Sum8(f[5..i]) as int + f[i] as int)
  {
    assert f[5..i + 1] == f[5..i] + [f[i]];
    Sum8More(f[5..i], f[i]);
  }

  function Negate8(x: byte): byte {
    Low8(0 - x as int)
  }

  /** A sum followed by its negation cancels. */
  lemma Cancels(s: seq<byte>)
    ensures Sum8(s + [Negate8(Sum8(s))]) == 0
  {
  }

  // ----- Building a frame -----

  /** A response answers command `c` with code `c + 1`. */
  function Successor(command: byte): byte {
    Low8(command as int + 1)
  }

  /** The frame that carries `code` and `data`; `tfi` tells host from chip.  The length
      byte is truncated as in the source, which accepts up to 255 data bytes. */
  function Build(tfi: byte, code: byte, data: seq<byte>): seq<byte> {
    var n := Low8(|data| + 2);
    START + [n, Negate8(n), tfi, code] + data + [Negate8(Sum8([tfi, code] + data)), 0x00]
  }

  /** Both command executors write the host's frame into a static buffer this way. */
  method WriteCommandFrame(buffer: array<byte>, command: byte, data: seq<byte>) returns (length: nat)
    requires |data| + 9 <= buffer.Length
    modifies buffer
    ensures length == |data| + 9
    ensures buffer[..length] == Build(HOST, command, data)
  {
    var n := Low8(|data| + 2);
    buffer[0], buffer[1], buffer[2] := 0x00, 0x00, 0xFF;
    buffer[3], buffer[4] := n, Negate8(n);
    buffer[5], buffer[6] := HOST, command;
    length := 7;
    var checksum: byte := Low8(HOST as int + command as int);
    ghost var head := START + [n, Negate8(n), HOST, command];
    assert checksum == Sum8([HOST, command]) by {
      Sum8Pair(HOST, command);
    }
    assert [HOST, command] + data[..0] == [HOST, command];
    for i := 0 to |data|
      invariant length == 7 + i
      invariant buffer[..length] == head + data[..i]
      invariant checksum == Sum8([HOST, command] + data[..i])
    {
      buffer[length] := data[i];
      Sum8Next([HOST, command], data, i);
      checksum := Low8(checksum as int + data[i] as int);
      length := length + 1;
      assert buffer[..length] == head + data[..i] + [data[i]] == head + data[..i + 1];
    }
    assert data[..|data|] == data;
    assert buffer[..length] == head + data;
    buffer[length] := Negate8(checksum);
    buffer[length + 1] := 0x00;
    length := length + 2;
    assert buffer[..length] == head + data + [Negate8(checksum), 0x00];
  }

  lemma Sum8Next(head: seq<byte>, data: seq<byte>, i: nat)
    requires i < |data|
    ensures Sum8(head + data[..i + 1]) == Low8(Sum8(head + data[..i]) as int + data[i] as int)
  {
    var t := head + data[..i + 1];
    assert t[..|t| - 1] == head + data[..i];
  }

  // ----- What a response frame carries -----

  datatype Carried = Nothing | Data(data: seq<byte>)

  /** The data of a response to `command`; a frame that fails any test carries nothing. */
  function ResponseData(f: seq<byte>, command: byte): Carried {
    if ValidNormal(f) && 9 <= |f| && 2 <= DataLength(f) && DataLength(f) + 7 == |f| && f[5] == CHIP && f[6] == Successor(command)
    then Data(f[7..5 + DataLength(f)])
    else Nothing
  }

  lemma BuiltFrameShape(tfi: byte, code: byte, data: seq<byte>)
    requires |data| <= MAX_DATA
    ensures var f := Build(tfi, code, data);
            && |f| == |data| + 9 && DataLength(f) == |data| + 2
            && f[5] == tfi && f[6] == code && f[7..5 + DataLength(f)] == data
            && ValidNormal(f) && !IsExtended(f)
  {
    var body := [tfi, code] + data;
    var n := Low8(|data| + 2);
    Cancels(body);
    NegateCancels(n);
    FrameLayout(n, Negate8(n), body, Negate8(Sum8(body)));
    BuildLayout(tfi, code, data);
    assert body[2..] == data;
  }

  lemma BuildLayout(tfi: byte, code: byte, data: seq<byte>)
    ensures var body, n := [tfi, code] + data, Low8(|data| + 2);
            Build(tfi, code, data) == START + [n, Negate8(n)] + (body + [Negate8(Sum8(body))]) + [0x00]
  {
  }

  lemma NegateCancels(x: byte)
    ensures Low8(x as int + Negate8(x) as int) == 0
  {
  }

  /** Where the parts of a normal frame lie. */
  lemma FrameLayout(n: byte, m: byte, body: seq<byte>, check: byte)
    requires 2 <= |body| == n as int
    ensures var f := START + [n, m] + (body + [check]) + [0x00];
            && |f| == |body| + 7 && f[..3] == START && f[3] == n && f[4] == m && f[5] == body[0] && f[6] == body[1]
            && f[5..6 + |body|] == body + [check] && f[7..5 + |body|] == body[2..] && f[6 + |body|] == 0
  {
  }

  /** Build then parse: behind any noise and before any further bytes, the frame is found
      where it is, leaves exactly what follows, passes the checksum test and gives back the
      data it was built from. */
  lemma BuildParseRoundTrip(noise: seq<byte>, command: byte, data: seq<byte>, rest: seq<byte>)
    requires Noise(noise) && |data| <= MAX_DATA
    ensures var f := Build(CHIP, Successor(command), data);
            && ParseFrame(noise + f + rest) == Found(f, rest)
            && ResponseData(f, command) == Data(data)
  {
    var f := Build(CHIP, Successor(command), data);
    BuiltFrameShape(CHIP, Successor(command), data);
    ParseBuilt(noise, f, rest);
  }

  /** The same for the host's own command frames, read by the chip. */
  lemma CommandFrameIsFound(noise: seq<byte>, command: byte, data: seq<byte>, rest: seq<byte>)
    requires Noise(noise) && |data| <= MAX_DATA
    ensures var f := Build(HOST, command, data);
            && ParseFrame(noise + f + rest) == Found(f, rest) && ValidNormal(f)
            && f[6] == command && f[7..5 + DataLength(f)] == data
  {
    BuiltFrameShape(HOST, command, data);
    ParseBuilt(noise, Build(HOST, command, data), rest);
  }

  lemma ParseBuilt(noise: seq<byte>, f: seq<byte>, rest: seq<byte>)
    requires Noise(noise) && 9 <= |f| <= MAX_FRAME && f[..3] == START && DataLength(f) + 7 == |f| && !IsExtended(f)
    ensures ParseFrame(noise + f + rest) == Found(f, rest)
  {
    var s := f + rest;
    assert s[0..3] == f[..3];
    assert noise + f + rest == noise + s;
    ParseBehindNoise(noise, s);
    assert s[..|f|] == f && s[|f|..] == rest;
  }

  /** 253 is exactly the limit: with 254 or 255 data bytes the truncated length byte makes
      the chip's frame carry something else, or nothing. */
  lemma RoundTripLimit(command: byte, data: seq<byte>)
    requires |data| <= 255
    ensures (exists f, rest :: ParseFrame(Build(CHIP, Successor(command), data)) == Found(f, rest) && ResponseData(f, command) == Data(data))
       <==> |data| <= MAX_DATA
  {
    var b := Build(CHIP, Successor(command), data);
    if |data| <= MAX_DATA {
      BuildParseRoundTrip([], command, data, []);
      assert [] + b + [] == b;
    } else {
      assert b[..3] == START;
      assert FrameLength(b) <= 8;
    }
  }

  /** The normal frame around some bytes. */
  function Framed(body: seq<byte>): seq<byte>
    requires |body| <= 255
  {
    START + [|body|, Negate8(|body|)] + (body + [Negate8(Sum8(body))]) + [0x00]
  }

  /** The checks are exact: a frame as long as it declares passes them if and only if it is the
      very frame around the bytes it carries, of which there is at least one; so a wrong length
      checksum, data checksum or postamble is always refused. */
  lemma ValidExactlyIfFramed(f: seq<byte>)
    requires 7 <= |f| && f[..3] == START && DataLength(f) + 7 == |f|
    ensures ValidNormal(f) <==> |f| >= 8 && f == Framed(f[5..|f| - 2])
  {
    var body := f[5..|f| - 2];
    if ValidNormal(f) {
      FrameParts(f, body);
      ChecksumIsNegated(body, f[|f| - 2]);
      LengthIsNegated(f[3], f[4]);
    } else if |f| >= 8 && f == Framed(body) {
      FramedIsValid(body, f);
    }
  }

  lemma FramedIsValid(body: seq<byte>, f: seq<byte>)
    requires 1 <= |body| <= 255 && f == Framed(body)
    ensures ValidNormal(f)
  {
    Cancels(body);
    NegateCancels(|body|);
    assert |f| == |body| + 7 && f[3] == |body| && f[4] == Negate8(|body|) && f[6 + |body|] == 0;
    assert f[5..6 + |body|] == body + [Negate8(Sum8(body))];
  }

  /** Where the parts of any frame lie. */
  lemma FrameParts(f: seq<byte>, body: seq<byte>)
    requires 8 <= |f| && f[..3] == START && body == f[5..|f| - 2]
    ensures f[5..|f| - 1] == body + [f[|f| - 2]]
    ensures f == START + [f[3], f[4]] + (body + [f[|f| - 2]]) + [f[|f| - 1]]
  {
    assert f == f[..3] + [f[3], f[4]] + f[5..|f| - 1] + [f[|f| - 1]];
  }

  lemma BuildIsFramed(tfi: byte, code: byte, data: seq<byte>)
    requires |data| <= MAX_DATA
    ensures Build(tfi, code, data) == Framed([tfi, code] + data)
  {
    BuildLayout(tfi, code, data);
  }

  lemma LengthIsNegated(n: byte, m: byte)
    requires Low8(n as int + m as int) == 0
    ensures m == Negate8(n)
  {
  }

  lemma ChecksumIsNegated(body: seq<byte>, check: byte)
    requires Sum8(body + [check]) == 0
    ensures check == Negate8(Sum8(body))
  {
    assert (body + [check])[..|body|] == body;
  }

  /** So a delivered frame is taken for a response to `command` with `data` if and only if it is
      the frame that the chip builds for that. */
  lemma ResponseExactlyIfBuilt(f: seq<byte>, command: byte, data: seq<byte>)
    requires |f| >= 5 && f[..3] == START
    ensures ResponseData(f, command) == Data(data) <==> |data| <= 253 && f == Build(0xD5, Low8(command as int + 1), data)
  {
    if |data| <= MAX_DATA && f == Build(CHIP, Successor(command), data) {
      BuiltFrameShape(CHIP, Successor(command), data);
    }
    if ResponseData(f, command) == Data(data) {
      ValidExactlyIfFramed(f);
      assert f[5..|f| - 2] == [f[5], f[6]] + data;
      BuildIsFramed(f[5], f[6], data);
    }
  }

  // ----- The classes of frame never overlap -----

  /** A frame that some stream delivered. */
  ghost predicate Delivered(f: seq<byte>) {
    exists s, rest :: ParseFrame(s) == Found(f, rest)
  }

  /** A found frame is a contiguous stretch of the stream, the rest follows it directly,
      and the frame's own header declares its length. */
  lemma {:induction false} FoundIsWhole(s: seq<byte>)
    requires ParseFrame(s).Found?
    ensures var f, rest := ParseFrame(s).frame, ParseFrame(s).rest;
            var p := |s| - |rest| - |f|;
            && 0 <= p && s[p..p + |f|] == f && s[p + |f|..] == rest
            && 6 <= |f| <= MAX_FRAME && f[..3] == START && FrameLength(f) == |f|
    decreases |s|
  {
    if s[..3] == START {
      FoundBody(s);
    } else {
      FoundIsWhole(s[1..]);
      StretchOfTail(s, |s| - |ParseFrame(s).rest| - |ParseFrame(s).frame|, |ParseFrame(s).frame|);
    }
  }

  lemma StretchOfTail(s: seq<byte>, p: int, n: nat)
    requires 1 <= p && p + n <= |s|
    ensures s[1..][p - 1..p - 1 + n] == s[p..p + n] && s[1..][p - 1 + n..] == s[p + n..]
  {
  }

  lemma FoundBody(s: seq<byte>)
    requires |s| >= 3 && s[..3] == START && ParseBody(s).Found?
    ensures var f, rest := ParseBody(s).frame, ParseBody(s).rest;
            && s == f + rest
            && 6 <= |f| <= MAX_FRAME && f[..3] == START && FrameLength(f) == |f|
  {
  }

  /** A delivered frame is an ACK, an extended frame or a normal frame, and only one of
      them can be: a frame that passes the checksum test is never taken for an ACK or an
      extended frame, and the test reads only below the collected length. */
  lemma ClassesDisjoint(f: seq<byte>)
    requires Delivered(f)
    ensures 6 <= |f| && (f != ACK && !IsExtended(f) ==> |f| == DataLength(f) + 7)
    ensures f == ACK ==> !IsExtended(f)
    ensures ValidNormal(f) ==> f != ACK && !IsExtended(f)
    ensures |f| >= 8 && LengthChecks(f) ==> DataLength(f) + 7 == |f|
  {
    var s, rest :| ParseFrame(s) == Found(f, rest);
    FoundIsWhole(s);
    assert FrameLength(f) == |f|;
  }
}
