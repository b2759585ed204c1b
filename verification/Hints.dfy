/** The hint buffer of the fast VM (rvgo/fast/vm.go): a stream of messages, each with its
    length in four bytes in front, cut into writes in any way. */
module Hints {
  import opened Words
  import opened Bytes
  import opened Cpu

  /** What one pass of the loop takes off the buffer: the hint and the rest. None stands for a
      slice with its end before its start, which panics. */
  datatype Taken = Taken(hint: seq<byte>, rest: seq<byte>) | Nothing | Panic

  /** The four length bytes and the lengths compared are uint32, as in the source. */
  function TakeHint(buffer: seq<byte>): Taken {
    if |buffer| < 4 then Nothing
    else
      var hintLen := FromBE(buffer[..4]);
      if hintLen <= (|buffer| - 4) % TWO32 then
        FromBEBound(buffer[..4]);
        PowValues();
        var end := (4 + hintLen) % TWO32;
        if end < 4 then Panic else HintEnd(buffer, hintLen); Taken(buffer[4..end], buffer[end..])
      else Nothing // wait for more
  }

  lemma HintEnd(buffer: seq<byte>, hintLen: nat)
    requires 4 <= |buffer| && hintLen < TWO32 && hintLen <= (|buffer| - 4) % TWO32 && (4 + hintLen) % TWO32 >= 4
    ensures (4 + hintLen) % TWO32 == 4 + hintLen <= |buffer|
  {
  }

  /** The loop: all hints it delivers, and the buffer it leaves; None if it panics. */
  function ProcessHints(buffer: seq<byte>): Option<(seq<seq<byte>>, seq<byte>)>
    decreases |buffer|
  {
    match TakeHint(buffer)
    case Nothing => Some(([], buffer))
    case Panic => None
    case Taken(hint, rest) =>
      TakenIsShorter(buffer);
      match ProcessHints(rest)
      case None => None
      case Some((hints, left)) => Some(([hint] + hints, left))
  }

  lemma TakenIsShorter(buffer: seq<byte>)
    ensures TakeHint(buffer).Taken? ==> |TakeHint(buffer).rest| < |buffer|
  {
  }

  method RunHints(buffer: seq<byte>) returns (hints: seq<seq<byte>>, rest: seq<byte>, ok: bool)
    ensures ok == ProcessHints(buffer).Some?
    ensures ok ==> ProcessHints(buffer) == Some((hints, rest))
  {
    hide TakeHint;
    hints, rest := [], buffer;
    if ProcessHints(buffer).Some? {
      assert hints + ProcessHints(buffer).value.0 == ProcessHints(buffer).value.0;
    }
    while true
      invariant ProcessHints(rest).None? == ProcessHints(buffer).None?
      invariant ProcessHints(rest).Some? ==>
        ProcessHints(buffer) == Some((hints + ProcessHints(rest).value.0, ProcessHints(rest).value.1))
      decreases |rest|
    {
      TakenIsShorter(rest);
      match TakeHint(rest) {
        case Nothing =>
          assert hints + [] == hints;
          return hints, rest, true;
        case Panic =>
          return hints, rest, false;
        case Taken(hint, left) =>
          if ProcessHints(left).Some? {
            assert hints + ([hint] + ProcessHints(left).value.0) == hints + [hint] + ProcessHints(left).value.0;
          }
          hints, rest := hints + [hint], left;
      }
    }
  }

  // ----- what the stream means -----

  /** One complete message at the front, in plain arithmetic. */
  function TakeMessage(s: seq<byte>): Taken {
    if |s| < 4 || 4 + FromBE(s[..4]) > |s| then Nothing
    else Taken(s[4..4 + FromBE(s[..4])], s[4 + FromBE(s[..4])..])
  }

  /** All complete messages in order, and the incomplete tail. */
  function Messages(s: seq<byte>): (seq<seq<byte>>, seq<byte>)
    decreases |s|
  {
    match TakeMessage(s)
    case Taken(hint, rest) =>
      var r := Messages(rest);
      ([hint] + r.0, r.1)
    case _ => ([], s)
  }

  /** The uint32 arithmetic of the source does no harm to this buffer. */
  predicate Unharmed(s: seq<byte>) {
    |s| < 4 || 4 + FromBE(s[..4]) > |s|
    || (FromBE(s[..4]) <= (|s| - 4) % TWO32 && FromBE(s[..4]) < TWO32 - 4)
  }

  /** Exactly when the source takes the message that is there. */
  lemma TakesMessage(s: seq<byte>)
    ensures TakeHint(s) == TakeMessage(s) <==> Unharmed(s)
  {
    hide FromBE, Pow2;
    if |s| >= 4 {
      FromBEBound(s[..4]);
      PowValues();
      LengthsFit(FromBE(s[..4]), |s|);
      TakesAt(s, FromBE(s[..4]));
    }
  }

  /** Whatever TakeHint takes is a message. */
  lemma OnlyMessages(s: seq<byte>)
    ensures TakeHint(s).Taken? ==> TakeHint(s) == TakeMessage(s)
    ensures TakeMessage(s).Nothing? ==> Unharmed(s)
    ensures !TakeMessage(s).Panic?
  {
    hide FromBE, Pow2;
    if TakeHint(s).Taken? {
      FromBEBound(s[..4]);
      PowValues();
      HintEnd(s, FromBE(s[..4]));
    }
  }

  /** The same for a message whose length prefix is n. */
  lemma TakesAt(s: seq<byte>, n: nat)
    requires |s| >= 4 && n == FromBE(s[..4]) < TWO32
    requires 4 + n > |s| ==> n > (|s| - 4) % TWO32
    requires if n < TWO32 - 4 then (4 + n) % TWO32 == 4 + n else (4 + n) % TWO32 < 4
    ensures TakeHint(s) == TakeMessage(s) <==> Unharmed(s)
  {
    hide FromBE;
    var fits := n <= (|s| - 4) % TWO32;
    if !fits {
      assert TakeHint(s) == Nothing;
    } else if n >= TWO32 - 4 {
      assert TakeHint(s) == Panic;
    } else {
      assert TakeHint(s) == Taken(s[4..4 + n], s[4 + n..]);
    }
  }

  /** An incomplete message is shorter than 2^32 bytes; a length close to 2^32 wraps around. */
  lemma LengthsFit(n: nat, len: nat)
    requires n < TWO32 && len >= 4
    ensures 4 + n > len ==> n > (len - 4) % TWO32
    ensures n < TWO32 - 4 ==> (4 + n) % TWO32 == 4 + n
    ensures n >= TWO32 - 4 ==> (4 + n) % TWO32 < 4
  {
  }

  /** The same for every message that the loop comes to. */
  predicate AllUnharmed(s: seq<byte>)
    decreases |s|
  {
    Unharmed(s) && (TakeMessage(s).Taken? ==> AllUnharmed(TakeMessage(s).rest))
  }

  /** Exactly when the loop delivers the complete messages of the buffer and leaves the rest. */
  lemma {:induction false} ProcessesMessages(s: seq<byte>)
    ensures ProcessHints(s) == Some(Messages(s)) <==> AllUnharmed(s)
    decreases |s|
  {
    hide TakeHint, TakeMessage, Unharmed;
    TakesMessage(s);
    OnlyMessages(s);
    TakenIsShorter(s);
    if TakeMessage(s).Taken? && TakeHint(s) == TakeMessage(s) {
      var hint, rest := TakeMessage(s).hint, TakeMessage(s).rest;
      ProcessesMessages(rest);
      if ProcessHints(rest).Some? {
        var (x, y) := (ProcessHints(rest).value.0, Messages(rest).0);
        assert ([hint] + x)[1..] == x && ([hint] + y)[1..] == y;
      }
    }
  }

  /** Buffers below 2^32 bytes are safe. */
  lemma {:induction false} SmallIsUnharmed(s: seq<byte>)
    requires |s| < TWO32
    ensures AllUnharmed(s)
    decreases |s|
  {
    if |s| >= 4 {
      assert (|s| - 4) % TWO32 == |s| - 4;
    }
    if TakeMessage(s).Taken? {
      SmallIsUnharmed(TakeMessage(s).rest);
    }
  }

  /** A buffer of 2^32 + 4 bytes hides the message at its front: its length counts as 0. */
  lemma LargeBufferStalls(s: seq<byte>)
    requires |s| == TWO32 + 4 && FromBE(s[..4]) == 1
    ensures TakeHint(s) == Nothing && TakeMessage(s) == Taken([s[4]], s[5..])
  {
  }

  /** Messages that are complete stay what they are when more bytes follow. */
  lemma {:induction false} MessagesAppend(a: seq<byte>, b: seq<byte>)
    ensures Messages(a + b).0 == Messages(a).0 + Messages(Messages(a).1 + b).0
    ensures Messages(a + b).1 == Messages(Messages(a).1 + b).1
    decreases |a|
  {
    if TakeMessage(a).Taken? {
      var hint, rest := TakeMessage(a).hint, TakeMessage(a).rest;
      TakesSame(a, b);
      MessagesAppend(rest, b);
      var x, y := Messages(rest).0, Messages(Messages(rest).1 + b).0;
      assert [hint] + (x + y) == ([hint] + x) + y;
    } else {
      assert [] + Messages(a + b).0 == Messages(a + b).0;
    }
  }

  lemma TakesSame(a: seq<byte>, b: seq<byte>)
    requires TakeMessage(a).Taken?
    ensures TakeMessage(a + b) == Taken(TakeMessage(a).hint, TakeMessage(a).rest + b)
  {
    hide FromBE;
    var n := FromBE(a[..4]);
    assert (a + b)[..4] == a[..4];
    assert (a + b)[4..4 + n] == a[4..4 + n];
    assert (a + b)[4 + n..] == a[4 + n..] + b;
  }

  /** The bytes that successive hint writes bring. */
  function Stream(chunks: seq<seq<byte>>): seq<byte> {
    if |chunks| == 0 then [] else Stream(chunks[..|chunks| - 1]) + chunks[|chunks| - 1]
  }

  /** Successive hint writes: all hints delivered, and the buffer after the last. */
  function Feed(chunks: seq<seq<byte>>): Option<(seq<seq<byte>>, seq<byte>)> {
    if |chunks| == 0 then Some(([], []))
    else
      match Feed(chunks[..|chunks| - 1])
      case None => None
      case Some((hints, buffer)) =>
        match ProcessHints(buffer + chunks[|chunks| - 1])
        case None => None
        case Some((more, rest)) => Some((hints + more, rest))
  }

  /** No buffer, with the chunk that comes in, is harmed. */
  predicate BuffersFit(chunks: seq<seq<byte>>) {
    |chunks| > 0 ==>
      && BuffersFit(chunks[..|chunks| - 1])
      && AllUnharmed(Messages(Stream(chunks[..|chunks| - 1])).1 + chunks[|chunks| - 1])
  }

  /** Chunking: however the stream is cut into writes, the hints delivered are the complete
      messages of the whole stream in order, and the buffer is its incomplete tail. */
  lemma {:induction false} ChunkingIsInvisible(chunks: seq<seq<byte>>)
    requires BuffersFit(chunks)
    ensures Feed(chunks) == Some(Messages(Stream(chunks)))
  {
    if |chunks| == 0 {
      assert TakeMessage([]) == Nothing;
    } else {
      var before, chunk := chunks[..|chunks| - 1], chunks[|chunks| - 1];
      ChunkingIsInvisible(before);
      hide Messages, ProcessHints, AllUnharmed;
      MessagesAppend(Stream(before), chunk);
      ProcessesMessages(Messages(Stream(before)).1 + chunk);
    }
  }

  /** Writes that keep the buffer below 2^32 bytes meet the condition. */
  lemma {:induction false} SmallBuffersFit(chunks: seq<seq<byte>>)
    requires forall i :: 0 <= i < |chunks| ==> |Messages(Stream(chunks[..i])).1| + |chunks[i]| < TWO32
    ensures BuffersFit(chunks)
  {
    hide Messages, AllUnharmed;
    if |chunks| > 0 {
      var n := |chunks| - 1;
      forall i | 0 <= i < n ensures |Messages(Stream(chunks[..n][..i])).1| + |chunks[..n][i]| < TWO32 {
        assert chunks[..n][..i] == chunks[..i];
      }
      SmallBuffersFit(chunks[..n]);
      SmallIsUnharmed(Messages(Stream(chunks[..n])).1 + chunks[n]);
    }
  }
}
