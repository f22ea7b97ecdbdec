/** The reader that bounds SFTP packets before their payload is allocated. */
module SftpStream {
  import opened Basics

  const MAX_SFTP_PACKET := 1024 * 1024
  const BUFFER := 8192

  /** What polling the channel below gives: nothing yet, an I/O error, or bytes;
      no bytes mean the end of the channel. */
  datatype Polled = Pending | Broken | Data(bytes: Bytes)

  datatype ReadError = FromChannel | UnexpectedEof | Oversized

  datatype Status = Waiting | Filled | Failure(error: ReadError)

  function Length(prefix: Bytes): nat
    requires |prefix| == 4
  {
    prefix[0] as int * 0x100_0000 + prefix[1] as int * 0x1_0000 + prefix[2] as int * 0x100 + prefix[3] as int
  }

  /** Whole frames, each with a length prefix within the limit. */
  ghost predicate WholeFrames(b: Bytes) {
    b == [] ||
    (&& |b| >= 4
     && Length(b[..4]) <= MAX_SFTP_PACKET
     && 4 + Length(b[..4]) <= |b|
     && WholeFrames(b[4 + Length(b[..4])..]))
  }

  /** Frames of which the last may be cut off, with no length prefix that
      exceeds the limit and therefore no byte of an oversized frame. */
  ghost predicate WithinLimit(b: Bytes) {
    |b| < 4 ||
    (&& Length(b[..4]) <= MAX_SFTP_PACKET
     && (|b| <= 4 + Length(b[..4]) || WithinLimit(b[4 + Length(b[..4])..])))
  }

  lemma {:induction false} AppendFrame(frames: Bytes, frame: Bytes)
    requires WholeFrames(frames)
    requires |frame| >= 4 && Length(frame[..4]) <= MAX_SFTP_PACKET && |frame| == 4 + Length(frame[..4])
    ensures WholeFrames(frames + frame)
  {
    if frames == [] {
      assert frames + frame == frame;
      assert WholeFrames(frame[|frame|..]);
    } else {
      var n := 4 + Length(frames[..4]);
      AppendFrame(frames[n..], frame);
      assert (frames + frame)[..4] == frames[..4];
      assert (frames + frame)[n..] == frames[n..] + frame;
    }
  }

  /** Any beginning of whole frames and one started frame stays within the limit. */
  lemma {:induction false} BeginningWithinLimit(frames: Bytes, current: Bytes, part: Bytes)
    requires WholeFrames(frames) && part <= frames + current
    requires |current| >= 4 ==> Length(current[..4]) <= MAX_SFTP_PACKET && |current| <= 4 + Length(current[..4])
    ensures WithinLimit(part)
    decreases |frames|
  {
    if |part| >= 4 {
      if frames == [] {
        assert frames + current == current;
        assert part[..4] == current[..4];
      } else {
        var n := 4 + Length(frames[..4]);
        assert part[..4] == (frames + current)[..4] == frames[..4];
        if |part| > n {
          assert (frames + current)[n..] == frames[n..] + current;
          assert part[n..] == (frames + current)[n..|part|];
          assert part[n..] == (frames[n..] + current)[..|part| - n];
          BeginningWithinLimit(frames[n..], current, part[n..]);
        }
      }
    }
  }

  /** A frame that declares too much shows, wherever whole frames end. */
  lemma {:induction false} OversizedShows(frames: Bytes, frame: Bytes)
    requires WholeFrames(frames)
    requires |frame| >= 4 && Length(frame[..4]) > MAX_SFTP_PACKET
    ensures !WithinLimit(frames + frame)
  {
    if frames == [] {
      assert frames + frame == frame;
    } else {
      var n := 4 + Length(frames[..4]);
      OversizedShows(frames[n..], frame);
      assert (frames + frame)[..4] == frames[..4];
      assert (frames + frame)[n..] == frames[n..] + frame;
    }
  }

  // ----- Framing without reading lengths back

  /** A length as four bytes, the most significant first. */
  function Spelled(n: nat): Bytes
    requires n < 0x1_0000_0000
  {
    [n / 0x100_0000, n / 0x1_0000 % 256, n / 0x100 % 256, n % 256]
  }

  /** Packets, each behind its length. */
  function Framed(packets: seq<Bytes>): Bytes
    requires forall i :: 0 <= i < |packets| ==> |packets[i]| < 0x1_0000_0000
  {
    if packets == [] then [] else Spelled(|packets[0]|) + packets[0] + Framed(packets[1..])
  }

  lemma LengthSpelled(n: nat)
    requires n < 0x1_0000_0000
    ensures Length(Spelled(n)) == n
  {
    hide Length;
    var a := n / 0x100;
    var b := a / 0x100;
    Quotients(n);
    assert n == 0x100 * a + n % 0x100 && a == 0x100 * b + a % 0x100 && b == 0x100 * (b / 0x100) + b % 0x100;
    SpelledBy(b / 0x100, b % 0x100, a % 0x100, n % 0x100);
  }

  lemma Quotients(n: nat)
    ensures n / 0x1_0000 == n / 0x100 / 0x100 && n / 0x100_0000 == n / 0x100 / 0x100 / 0x100
  {
  }

  lemma SpelledBy(c: Byte, b: Byte, a: Byte, z: Byte)
    ensures Length([c, b, a, z]) == 0x100 * (0x100 * (0x100 * c + b) + a) + z
  {
  }

  lemma SpelledLength(prefix: Bytes)
    requires |prefix| == 4
    ensures Length(prefix) < 0x1_0000_0000 && Spelled(Length(prefix)) == prefix
  {
    var n := Length(prefix);
    assert n / 0x100 == prefix[0] as int * 0x1_0000 + prefix[1] as int * 0x100 + prefix[2] as int;
    assert n / 0x1_0000 == prefix[0] as int * 0x100 + prefix[1] as int;
  }

  ghost predicate Admissible(packets: seq<Bytes>) {
    forall i :: 0 <= i < |packets| ==> |packets[i]| <= MAX_SFTP_PACKET
  }

  /** Whole frames are packets within the limit, each behind its length. */
  lemma WholeFramesAreFramed(b: Bytes)
    ensures WholeFrames(b) <==> exists packets :: Admissible(packets) && Framed(packets) == b
  {
    if WholeFrames(b) {
      var packets := Unframed(b);
    }
    if packets :| Admissible(packets) && Framed(packets) == b {
      FramedIsWhole(packets);
    }
  }

  lemma {:induction false} Unframed(b: Bytes) returns (packets: seq<Bytes>)
    requires WholeFrames(b)
    ensures Admissible(packets) && Framed(packets) == b
  {
    packets := [];
    if b != [] {
      var n := Length(b[..4]);
      var rest := Unframed(b[4 + n..]);
      packets := [b[4..4 + n]] + rest;
      assert packets[1..] == rest;
      SpelledLength(b[..4]);
      assert b == b[..4] + b[4..4 + n] + b[4 + n..];
    }
  }

  lemma {:induction false} FramedIsWhole(packets: seq<Bytes>)
    requires Admissible(packets)
    ensures WholeFrames(Framed(packets))
  {
    if packets != [] {
      var n, b := |packets[0]|, Framed(packets);
      LengthSpelled(n);
      FramedIsWhole(packets[1..]);
      assert b[..4] == Spelled(n) && b[4 + n..] == Framed(packets[1..]);
    }
  }

  /** The beginning of a packet that is within the limit. */
  ghost predicate Beginning(b: Bytes) {
    |b| < 4 || exists n: nat :: n <= MAX_SFTP_PACKET && b[..4] == Spelled(n) && |b| <= 4 + n
  }

  /** To stay within the limit is to be such packets and the beginning of one. */
  lemma WithinLimitIsFramed(b: Bytes)
    ensures WithinLimit(b) <==>
      exists packets, part :: Admissible(packets) && Beginning(part) && b == Framed(packets) + part
  {
    if WithinLimit(b) {
      var packets, part := Divided(b);
    }
    if packets, part :| Admissible(packets) && Beginning(part) && b == Framed(packets) + part {
      FramedIsWhole(packets);
      if |part| >= 4 {
        var n: nat :| n <= MAX_SFTP_PACKET && part[..4] == Spelled(n) && |part| <= 4 + n;
        LengthSpelled(n);
      }
      BeginningWithinLimit(Framed(packets), part, b);
    }
  }

  lemma {:induction false} Divided(b: Bytes) returns (packets: seq<Bytes>, part: Bytes)
    requires WithinLimit(b)
    ensures Admissible(packets) && Beginning(part) && b == Framed(packets) + part
  {
    packets, part := [], b;
    if |b| >= 4 {
      var n := Length(b[..4]);
      SpelledLength(b[..4]);
      if |b| > 4 + n {
        var rest;
        rest, part := Divided(b[4 + n..]);
        packets := [b[4..4 + n]] + rest;
        assert packets[1..] == rest;
        assert b == b[..4] + b[4..4 + n] + b[4 + n..];
        assert Framed(packets) + part == Spelled(n) + b[4..4 + n] + (Framed(rest) + part);
      }
    }
  }

  /** Packets within the limit followed by the declaration of a larger one are not
      within it, and followed by the beginning of one that is not larger they
      are. */
  lemma LimitOnDeclarations(packets: seq<Bytes>, n: nat, rest: Bytes)
    requires Admissible(packets) && n < 0x1_0000_0000
    ensures n > MAX_SFTP_PACKET ==> !WithinLimit(Framed(packets) + (Spelled(n) + rest))
    ensures n <= MAX_SFTP_PACKET && |rest| <= n ==> WithinLimit(Framed(packets) + (Spelled(n) + rest))
  {
    var frame := Spelled(n) + rest;
    LengthSpelled(n);
    FramedIsWhole(packets);
    assert frame[..4] == Spelled(n);
    if n > MAX_SFTP_PACKET {
      OversizedShows(Framed(packets), frame);
    } else if |rest| <= n {
      BeginningWithinLimit(Framed(packets), frame, Framed(packets) + frame);
    }
  }

  /** The channel below. */
  class Channel {
    var taken: Bytes

    // The latest answer, and how many there were.
    ghost var last: Polled
    ghost var polls: nat

    constructor ()
      ensures taken == []
    {
      taken := [];
      last, polls := Pending, 0;
    }

    method Poll(room: nat) returns (p: Polled)
      modifies this
      ensures p.Data? ==> |p.bytes| <= room && taken == old(taken) + p.bytes
      ensures !p.Data? ==> taken == old(taken)
      ensures last == p && polls == old(polls) + 1
    {
      polls := polls + 1;
      var choice: nat := *;
      if choice == 0 {
        last := Pending;
        return Pending;
      } else if choice == 1 {
        last := Broken;
        return Broken;
      }
      var length: nat :| length <= room;
      var bytes := [];
      while |bytes| < length
        invariant |bytes| <= length
      {
        var b: Byte := *;
        bytes := bytes + [b];
      }
      taken := taken + bytes;
      last := Data(bytes);
      return Data(bytes);
    }
  }

  class BoundedStream {
    const inner: Channel
    const prefix: array<Byte>
    var prefixLen: nat
    var prefixSent: nat
    var remaining: nat

    // Everything put into the caller's buffers, the whole frames among the
    // bytes taken from the channel, how many length prefixes were handed on
    // completely, and whether one was ever reported as exceeding the limit.
    ghost var emitted: Bytes
    ghost var frames: Bytes
    ghost var handed: nat
    ghost var exceeded: bool

    ghost predicate Shape()
      reads this
    {
      && prefix.Length == 4
      && prefixSent <= prefixLen <= 4
      && (prefixLen < 4 ==> prefixSent == 0)
    }

    /** The bytes taken from the channel are those emitted followed by the part
        of a length prefix still held back. */
    ghost predicate Conserves()
      requires Shape()
      reads this, inner, prefix
    {
      inner.taken == emitted + prefix[prefixSent..prefixLen]
    }

    /** They are whole frames followed by the frame that is under way. */
    ghost predicate Follows()
      requires Shape()
      reads this, inner, prefix
    {
      && WholeFrames(frames)
      && frames <= inner.taken
      && var current := inner.taken[|frames|..];
         if prefixLen < 4 then current == prefix[..prefixLen]
         else
           && |current| >= 4 && current[..4] == prefix[..]
           && Length(prefix[..]) <= MAX_SFTP_PACKET
           && |current| + remaining == 4 + Length(prefix[..])
           && (prefixSent < 4 ==> remaining == Length(prefix[..]))
    }

    /** Both hold until an oversized frame was reported; other errors do no
        harm. */
    ghost predicate Valid()
      reads this, inner, prefix
    {
      Shape() && (!exceeded ==> Conserves() && Follows())
    }

    /** What reporting an oversized frame leaves: its length prefix is complete
        and held back, and its payload is counted as outstanding. */
    ghost predicate HoldsOversized()
      requires Shape()
      reads this, prefix
    {
      && prefixLen == 4 && prefixSent == 0
      && remaining == Length(prefix[..]) > MAX_SFTP_PACKET
    }

    constructor (channel: Channel)
      requires channel.taken == []
      ensures Valid() && fresh(prefix) && inner == channel && emitted == [] && !exceeded
    {
      inner := channel;
      prefix := new Byte[4](_ => 0);
      prefixLen, prefixSent, remaining := 0, 0, 0;
      emitted, frames, handed, exceeded := [], [], 0, false;
    }

    /** What the stream has put out, at any time before it reported an oversized
        frame. */
    lemma NothingOversized()
      requires Valid() && !exceeded
      ensures WithinLimit(emitted)
      ensures |inner.taken| - |emitted| == prefixLen - prefixSent
    {
      var current := inner.taken[|frames|..];
      assert inner.taken == frames + current;
      BeginningWithinLimit(frames, current, emitted);
    }

    /** Reads more of the length prefix, and checks it once it is complete. */
    method PollPrefix() returns (p: Polled, fits: bool)
      requires Valid() && prefixLen < 4
      modifies this`prefixLen, this`remaining, inner, prefix
      ensures Shape() && prefixLen >= old(prefixLen) && old(inner.taken) <= inner.taken
      ensures p.Data? && p.bytes != [] ==> prefixLen > old(prefixLen)
      ensures p == Data([]) ==> prefixLen < 4
      ensures fits ==> Valid()
      ensures prefixLen < 4 ==> fits
      ensures !fits ==> p.Data? && HoldsOversized()
      ensures !fits && !exceeded ==> inner.taken == emitted + prefix[..] && WholeFrames(emitted)
      ensures inner.last == p && inner.polls == old(inner.polls) + 1
    {
      hide WholeFrames, WithinLimit, Length;
      ghost var before := inner.taken;
      p := inner.Poll(4 - prefixLen);
      fits := true;
      if p.Data? {
        ghost var held := prefix[..prefixLen];
        CopyIn(p.bytes);
        if prefixLen == 4 {
          assert prefix[..] == prefix[..4];
          remaining := Length(prefix[..]);
          fits := remaining <= MAX_SFTP_PACKET;
        }
        if !exceeded {
          MoreTaken(before, p.bytes, emitted, frames, held);
          assert before == frames + held;
        }
      }
    }

    static lemma MoreTaken(before: Bytes, bytes: Bytes, output: Bytes, whole: Bytes, held: Bytes)
      requires before == output + held && whole <= before && before[|whole|..] == held
      ensures before + bytes == output + (held + bytes)
      ensures whole <= before + bytes && (before + bytes)[|whole|..] == held + bytes
    {
    }

    method CopyIn(bytes: Bytes)
      requires Shape() && prefixLen + |bytes| <= 4
      modifies this`prefixLen, prefix
      ensures prefixLen == old(prefixLen) + |bytes|
      ensures prefix[..prefixLen] == old(prefix[..prefixLen]) + bytes
    {
      var i := 0;
      while i < |bytes|
        invariant 0 <= i <= |bytes| && prefixLen == old(prefixLen)
        invariant prefix[..prefixLen] == old(prefix[..prefixLen])
        invariant prefix[prefixLen..prefixLen + i] == bytes[..i]
      {
        prefix[prefixLen + i] := bytes[i];
        i := i + 1;
      }
      prefixLen := prefixLen + |bytes|;
      assert bytes[..|bytes|] == bytes;
    }

    /** The part of a complete length prefix that comes next, if there is room. */
    ghost function HeldBack(room: nat): Bytes
      requires Shape()
      reads this, prefix
    {
      if prefixLen == 4 then prefix[prefixSent..prefixSent + Min(room, 4 - prefixSent)] else []
    }

    lemma NothingHeldBack(room: nat)
      requires Shape() && (prefixLen < 4 || prefixSent == 4)
      ensures HeldBack(room) == []
    {
    }

    /** Hands the complete prefix on, as far as there is room. */
    method EmitPrefix(room: nat) returns (output: Bytes)
      requires Valid() && prefixLen == 4 && prefixSent < 4
      modifies this`prefixSent, this`emitted, this`handed
      ensures Valid() && |output| <= room && emitted == old(emitted) + output
      ensures output == old(HeldBack(room))
      ensures |output| < room ==> prefixSent == 4 && handed == old(handed) + 1
      ensures room > 0 ==> output != []
      ensures handed >= old(handed)
    {
      hide WholeFrames, WithinLimit, Length, HoldsOversized;
      var count := Min(room, 4 - prefixSent);
      output := prefix[prefixSent..prefixSent + count];
      assert prefix[prefixSent..prefixLen] == output + prefix[prefixSent + count..prefixLen];
      emitted := emitted + output;
      prefixSent := prefixSent + count;
      handed := if prefixSent == 4 then handed + 1 else handed;
    }

    /** Makes ready for the next length prefix. */
    method FinishFrame()
      requires Valid() && prefixLen == 4 && prefixSent == 4 && remaining == 0
      modifies this`prefixLen, this`prefixSent, this`frames
      ensures Valid() && prefixLen == 0
    {
      if !exceeded {
        ghost var current := inner.taken[|frames|..];
        assert inner.taken == frames + current;
        AppendFrame(frames, current);
        frames := inner.taken;
      }
      prefixLen, prefixSent := 0, 0;
    }

    /** Passes on at most `count` bytes of the payload. */
    method PollPayload(count: nat) returns (p: Polled)
      requires Valid() && prefixLen == 4 && prefixSent == 4 && count <= remaining
      modifies this`remaining, this`emitted, inner
      ensures Valid() && old(inner.taken) <= inner.taken
      ensures p.Data? ==> |p.bytes| <= count && emitted == old(emitted) + p.bytes
      ensures !p.Data? ==> emitted == old(emitted)
      ensures inner.last == p && inner.polls == old(inner.polls) + 1
    {
      hide WholeFrames, WithinLimit, Length;
      ghost var before := inner.taken;
      p := inner.Poll(count);
      if p.Data? {
        emitted := emitted + p.bytes;
        remaining := remaining - |p.bytes|;
        assert !exceeded ==> inner.taken[|frames|..] == before[|frames|..] + p.bytes;
      }
    }

    /** One more part of a length prefix; nothing if the reading can go on. */
    method NextPrefix() returns (stopped: Option<Status>)
      requires Valid() && prefixLen < 4
      modifies this`prefixLen, this`remaining, this`exceeded, inner, prefix
      ensures Valid() && prefixLen >= old(prefixLen) && old(inner.taken) <= inner.taken
      ensures inner.polls == old(inner.polls) + 1
      ensures stopped.None? ==> prefixLen > old(prefixLen)
      ensures stopped.Some? ==> stopped.value != Filled
      ensures stopped == Some(Waiting) ==> inner.last == Pending
      ensures stopped.Some? && stopped.value.Failure? ==> Explains(stopped.value.error)
      ensures exceeded <==> old(exceeded) || stopped == Some(Failure(Oversized))
      ensures stopped == Some(Failure(Oversized)) && !old(exceeded) ==>
        inner.taken == emitted + prefix[..] && WholeFrames(emitted)
    {
      hide WholeFrames, WithinLimit, Length;
      var p, fits := PollPrefix();
      if p == Pending {
        return Some(Waiting);
      }
      if p == Broken {
        return Some(Failure(FromChannel));
      }
      if p.bytes == [] {
        return Some(Failure(UnexpectedEof));
      }
      if !fits {
        exceeded := true;
        return Some(Failure(Oversized));
      }
      return None;
    }

    /** What is behind an error. */
    ghost predicate Explains(error: ReadError)
      requires Shape()
      reads this, inner, prefix
    {
      match error
      case FromChannel => inner.last == Broken
      case UnexpectedEof => inner.last == Data([])
      case Oversized => HoldsOversized()
    }

    /** One part of the payload, for `room` bytes at most. */
    method NextPayload(room: nat) returns (status: Status, part: Bytes)
      requires Valid() && prefixLen == 4 && prefixSent == 4 && remaining > 0
      modifies this`remaining, this`emitted, inner
      ensures Valid() && |part| <= room && emitted == old(emitted) + part
      ensures old(inner.taken) <= inner.taken && inner.polls == old(inner.polls) + 1
      ensures status == Filled <==> part != []
      ensures status == Waiting ==> inner.last == Pending
      ensures status.Failure? ==> status.error != Oversized && Explains(status.error)
    {
      hide WholeFrames, WithinLimit, Length;
      var p := PollPayload(Min(Min(room, remaining), BUFFER));
      if p == Pending {
        return Waiting, [];
      }
      if p == Broken {
        return Failure(FromChannel), [];
      }
      if p.bytes == [] {
        return Failure(UnexpectedEof), [];
      }
      return Filled, p.bytes;
    }

    /** How far the reading is from the next length prefix. */
    ghost function Rank(): nat
      requires Shape()
      reads this
    {
      if prefixSent == 4 then 5 else 4 - prefixLen
    }

    /** One round of the loop of `PollRead`; no status means another round. */
    method Round(room: nat) returns (stopped: Option<Status>, part: Bytes)
      requires Valid()
      modifies this, inner, prefix
      ensures Valid() && |part| <= room && emitted == old(emitted) + part
      ensures old(inner.taken) <= inner.taken
      ensures stopped.None? ==> (part == [] && Rank() < old(Rank())) || 0 < |part| < room
      ensures stopped == Some(Filled) && room > 0 ==> part != []
      ensures inner.polls >= old(inner.polls)
      ensures stopped.Some? && stopped.value != Filled ==> inner.polls > old(inner.polls)
      ensures handed >= old(handed)
      ensures stopped != Some(Filled) ==> (part != [] <==> handed > old(handed))
      ensures stopped == Some(Waiting) ==> inner.last == Pending
      ensures stopped.Some? && stopped.value.Failure? ==> Explains(stopped.value.error)
      ensures exceeded <==> old(exceeded) || stopped == Some(Failure(Oversized))
      ensures stopped == Some(Failure(Oversized)) && !old(exceeded) ==>
        inner.taken == emitted + prefix[..] && WholeFrames(emitted)
      ensures old(HeldBack(room)) <= part
    {
      hide Conserves, Follows, WholeFrames, WithinLimit, Length, Explains, HoldsOversized, HeldBack;
      part := [];
      if prefixLen < 4 || prefixSent == 4 {
        NothingHeldBack(room);
      }
      if prefixLen < 4 {
        stopped := NextPrefix();
        if stopped.Some? || prefixLen < 4 {
          return;
        }
      }
      if prefixSent < 4 {
        part := EmitPrefix(room);
        if |part| == room {
          return Some(Filled), part;
        }
      }
      if remaining == 0 {
        FinishFrame();
        return None, part;
      }
      var status, payload := NextPayload(room - |part|);
      return Some(status), part + payload;
    }

    /** Fills a buffer of `room` bytes: `output` are the bytes placed in it.
        Whatever the channel delivers and whatever other errors there were, the
        stream conserves bytes and lets no oversized frame through until it has
        reported one. A poll that does not fill may still have placed bytes: it
        has exactly if it handed a length prefix on. */
    method PollRead(room: nat) returns (status: Status, output: Bytes)
      requires Valid()
      modifies this, inner, prefix
      ensures Valid() && |output| <= room
      ensures emitted == old(emitted) + output
      ensures old(inner.taken) <= inner.taken
      ensures status == Filled && room > 0 ==> output != []
      ensures status != Filled ==> inner.polls > old(inner.polls)
      ensures status != Filled ==> (output != [] <==> handed > old(handed))
      ensures status == Waiting ==> inner.last == Pending
      ensures status.Failure? ==> Explains(status.error)
      ensures exceeded <==> old(exceeded) || status == Failure(Oversized)
      ensures status == Failure(Oversized) && !old(exceeded) ==>
        inner.taken == emitted + prefix[..] && WholeFrames(emitted)
      ensures old(HeldBack(room)) <= output
    {
      hide Conserves, Follows, WholeFrames, WithinLimit, Length, Explains, HoldsOversized, HeldBack, Shape;
      var stopped;
      stopped, output := Round(room);
      while stopped == None
        invariant Valid() && |output| <= room
        invariant exceeded <==> old(exceeded) || stopped == Some(Failure(Oversized))
        invariant emitted == old(emitted) + output && old(HeldBack(room)) <= output
        invariant old(inner.taken) <= inner.taken && inner.polls >= old(inner.polls)
        invariant handed >= old(handed)
        invariant stopped != Some(Filled) ==> (output != [] <==> handed > old(handed))
        invariant stopped == Some(Filled) && room > 0 ==> output != []
        invariant stopped.Some? && stopped.value != Filled ==> inner.polls > old(inner.polls)
        invariant stopped == Some(Waiting) ==> inner.last == Pending
        invariant stopped.Some? && stopped.value.Failure? ==> Explains(stopped.value.error)
        invariant stopped == Some(Failure(Oversized)) && !old(exceeded) ==>
          inner.taken == emitted + prefix[..] && WholeFrames(emitted)
        decreases stopped == None, room - |output|, Rank()
      {
        var part;
        stopped, part := Round(room - |output|);
        output := output + part;
      }
      return stopped.value, output;
    }
  }

  /** Why the guarantee ends with the report of an oversized frame: a caller that
      polls again gets that frame's bytes. */
  method PollAfterOversized(stream: BoundedStream, room: nat) returns (status: Status, output: Bytes)
    requires stream.Valid() && stream.exceeded && stream.HoldsOversized()
    requires WholeFrames(stream.emitted) && room > 0
    modifies stream, stream.inner, stream.prefix
    ensures stream.emitted == old(stream.emitted) + output
    ensures output != [] && output[0] == old(stream.prefix[0])
    ensures room >= 4 ==> old(stream.prefix[..]) <= output && !WithinLimit(stream.emitted)
  {
    ghost var before, frame := stream.emitted, stream.prefix[..];
    status, output := stream.PollRead(room);
    assert frame[..Min(room, 4)] <= output;
    assert output[0] == frame[..Min(room, 4)][0];
    if room >= 4 {
      assert frame[..4] == frame && output[..4] == frame;
      OversizedShows(before, output);
    }
  }

  function Min(a: nat, b: nat): nat {
    if a < b then a else b
  }
}
