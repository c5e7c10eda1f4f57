/**
 * The partial-transfer-safe I/O of src/Server.cpp: `readn` (read up to `n`
 * bytes, stopping at end of stream or at a chunk that ends in a newline),
 * `writen` (write exactly `n` bytes), the echo handler `StrEcho` built on
 * them, and the port half of `GetClientId`.
 *
 * The socket is a script: the result of each successive `recv` or `write`
 * call, in order.  `recv` never returns more than it is asked for, and a
 * `write` that succeeds accepts at least one byte.
 */
module Server {
  import opened Wrappers
  import opened ByteOrder
  import opened Posix
  import Socket

  const NEWLINE: byte := 10

  /** `sizeof(buf)` in `StrEcho`. */
  const ECHO_BUFFER_SIZE: nat := 128

  /** One `recv` call: a positive count of bytes, 0 (the peer closed), or -1 with `errno`. */
  datatype RecvResult = Received(chunk: seq<byte>) | PeerClosed | RecvError(errno: int)

  /** One `write` call: a count of accepted bytes, or -1 with `errno`. */
  datatype WriteResult = Written(count: nat) | WriteError(errno: int)

  /**
   * The script decides a `readn` of `nleft` more bytes: every chunk is
   * non-empty and no longer than what is asked for, and the script runs until
   * the loop stops.
   */
  predicate ReadDecided(script: seq<RecvResult>, nleft: nat)
    decreases |script|
  {
    nleft == 0 ||
    (|script| > 0 &&
     match script[0]
     case RecvError(e) => e != EINTR || ReadDecided(script[1..], nleft)
     case PeerClosed => true
     case Received(c) => 0 < |c| <= nleft && (c[|c| - 1] == NEWLINE || ReadDecided(script[1..], nleft - |c|)))
  }

  /** What a `readn` ends with: the bytes gathered and the number of `recv` calls made. */
  datatype ReadOutcome = ReadFailed(gathered: seq<byte>, calls: nat) | ReadDone(gathered: seq<byte>, calls: nat)

  /** An outcome preceded by `calls` calls that gathered `prefix`. */
  function After(prefix: seq<byte>, calls: nat, o: ReadOutcome): ReadOutcome {
    match o
    case ReadFailed(g, k) => ReadFailed(prefix + g, calls + k)
    case ReadDone(g, k) => ReadDone(prefix + g, calls + k)
  }

  /**
   * The outcome of `readn` over a script: EINTR is retried, any other error
   * fails, end of stream stops, and a chunk is gathered and ends the read
   * when its last byte is a newline.
   */
  function ReadSpec(script: seq<RecvResult>, nleft: nat): (o: ReadOutcome)
    requires ReadDecided(script, nleft)
    ensures |o.gathered| <= nleft
    ensures o.calls <= |script|
    decreases |script|
  {
    if nleft == 0 then ReadDone([], 0)
    else
      match script[0]
      case RecvError(e) =>
        if e == EINTR then After([], 1, ReadSpec(script[1..], nleft)) else ReadFailed([], 1)
      case PeerClosed => ReadDone([], 1)
      case Received(c) =>
        if c[|c| - 1] == NEWLINE then ReadDone(c, 1)
        else After(c, 1, ReadSpec(script[1..], nleft - |c|))
  }

  /** What `readn` returns for an outcome: -1 on failure, else the count gathered. */
  function ReturnValue(o: ReadOutcome): int {
    if o.ReadFailed? then -1 else |o.gathered|
  }

  lemma AfterAfter(a: seq<byte>, i: nat, b: seq<byte>, j: nat, o: ReadOutcome)
    ensures After(a, i, After(b, j, o)) == After(a + b, i + j, o)
  {
    assert a + (b + o.gathered) == (a + b) + o.gathered;
  }

  /** One loop step of `readn` on an interrupted call: nothing changes but the call count. */
  lemma ReadStepInterrupted(pending: seq<RecvResult>, i: nat, nleft: nat, prefix: seq<byte>)
    requires pending != [] && nleft > 0 && ReadDecided(pending, nleft)
    requires pending[0] == RecvError(EINTR)
    ensures ReadDecided(pending[1..], nleft)
    ensures After(prefix, i, ReadSpec(pending, nleft)) == After(prefix, i + 1, ReadSpec(pending[1..], nleft))
  {
    AfterAfter(prefix, i, [], 1, ReadSpec(pending[1..], nleft));
    assert prefix + [] == prefix;
  }

  /** One loop step of `readn` on a chunk that does not end in a newline. */
  lemma ReadStepChunk(pending: seq<RecvResult>, i: nat, nleft: nat, prefix: seq<byte>, c: seq<byte>)
    requires pending != [] && nleft > 0 && ReadDecided(pending, nleft)
    requires pending[0] == Received(c) && c != [] && c[|c| - 1] != NEWLINE
    ensures |c| <= nleft && ReadDecided(pending[1..], nleft - |c|)
    ensures After(prefix, i, ReadSpec(pending, nleft)) == After(prefix + c, i + 1, ReadSpec(pending[1..], nleft - |c|))
  {
    AfterAfter(prefix, i, c, 1, ReadSpec(pending[1..], nleft - |c|));
  }

  /** `recv` returns no more than it is asked for. */
  lemma ReadStepBound(pending: seq<RecvResult>, nleft: nat, c: seq<byte>)
    requires pending != [] && nleft > 0 && ReadDecided(pending, nleft) && pending[0] == Received(c)
    ensures 0 < |c| <= nleft
  {
  }

  /** A step of `readn` that ends the loop: end of stream. */
  lemma ReadStepClosed(pending: seq<RecvResult>, i: nat, nleft: nat, prefix: seq<byte>)
    requires pending != [] && nleft > 0 && pending[0] == PeerClosed
    ensures After(prefix, i, ReadSpec(pending, nleft)) == ReadDone(prefix, i + 1)
  {
    assert prefix + [] == prefix;
  }

  /** A step of `readn` that ends the loop: an error other than EINTR. */
  lemma ReadStepFailed(pending: seq<RecvResult>, i: nat, nleft: nat, prefix: seq<byte>)
    requires pending != [] && nleft > 0 && pending[0].RecvError? && pending[0].errno != EINTR
    ensures After(prefix, i, ReadSpec(pending, nleft)) == ReadFailed(prefix, i + 1)
  {
    assert prefix + [] == prefix;
  }

  /** A step of `readn` that ends the loop: a chunk whose last byte is a newline. */
  lemma ReadStepNewline(pending: seq<RecvResult>, i: nat, nleft: nat, prefix: seq<byte>, c: seq<byte>)
    requires pending != [] && nleft > 0 && ReadDecided(pending, nleft)
    requires pending[0] == Received(c) && c != [] && c[|c| - 1] == NEWLINE
    ensures After(prefix, i, ReadSpec(pending, nleft)) == ReadDone(prefix + c, i + 1)
  {
    assert c + [] == c;
  }

  /** The state of `readn`'s buffer: `got` at its start, zeros after it up to `n`. */
  ghost predicate Holds(b: seq<byte>, got: seq<byte>, n: nat) {
    |got| <= n <= |b| && b[..|got|] == got && forall k :: |got| <= k < n ==> b[k] == 0
  }

  /** What a `recv` into `buf` at offset `|got|` does with the chunk it returns: copy it there. */
  method Deposit(buf: array<byte>, n: nat, p: nat, ghost got: seq<byte>, c: seq<byte>)
    requires Holds(buf[..], got, n) && p == |got| && p + |c| <= n
    modifies buf
    ensures Holds(buf[..], got + c, n)
    ensures c != [] ==> buf[p + |c| - 1] == c[|c| - 1]
    ensures buf[n..] == old(buf[n..])
  {
    forall k | 0 <= k < |c| {
      buf[p + k] := c[k];
    }
    assert buf[..p + |c|] == buf[..p] + buf[p..p + |c|];
  }

  /**
   * `readn(fd, vptr, n)`: zero `buf[0..n)`, then receive into it chunk by
   * chunk.  It returns -1 on an error other than EINTR and otherwise the
   * number of bytes gathered; `buf[0..r)` holds the chunks in order and the
   * rest of `buf[0..n)` stays zero.  (The source's own `Server::Readn` is the
   * wrapper that logs a failure; logging is not modelled.)
   */
  method Readn(buf: array<byte>, n: nat, script: seq<RecvResult>) returns (r: int, calls: nat)
    requires n <= buf.Length
    requires ReadDecided(script, n)
    modifies buf
    ensures var o := ReadSpec(script, n);
      r == ReturnValue(o) && calls == o.calls && Holds(buf[..], o.gathered, n)
    ensures buf[n..] == old(buf[n..])
  {
    forall k | 0 <= k < n {
      buf[k] := 0;
    }
    ghost var o := ReadSpec(script, n);
    var nleft: nat := n;
    var p: nat := 0;
    var i: nat := 0;
    var pending := script;
    ghost var got: seq<byte> := [];
    while nleft > 0
      invariant p + nleft == n && |got| == p
      invariant ReadDecided(pending, nleft)
      invariant o == After(got, i, ReadSpec(pending, nleft))
      invariant Holds(buf[..], got, n)
      invariant buf[n..] == old(buf[n..])
      decreases |pending|
    {
      var res := pending[0];
      match res {
        case RecvError(e) =>
          if e == EINTR {
            ReadStepInterrupted(pending, i, nleft, got);
            pending, i := pending[1..], i + 1;
            continue;
          }
          ReadStepFailed(pending, i, nleft, got);
          r, calls := -1, i + 1;
          return;
        case PeerClosed =>
          ReadStepClosed(pending, i, nleft, got);
          i := i + 1;
          break;
        case Received(c) =>
          ReadStepBound(pending, nleft, c);
          Deposit(buf, n, p, got, c);
          var last := buf[p + |c| - 1];
          if last == NEWLINE {
            ReadStepNewline(pending, i, nleft, got, c);
            got := got + c;
            i := i + 1;
            nleft := nleft - |c|;
            break;
          }
          ReadStepChunk(pending, i, nleft, got, c);
          got := got + c;
          pending, i := pending[1..], i + 1;
          nleft := nleft - |c|;
          p := p + |c|;
      }
    }
    r := n - nleft;
    calls := i;
  }

  /** A read of zero bytes makes no `recv` call and returns 0. */
  lemma ReadOfZeroLength(script: seq<RecvResult>)
    ensures ReadDecided(script, 0) && ReadSpec(script, 0) == ReadDone([], 0)
  {
  }

  /** An interrupted `recv` changes nothing but the number of calls. */
  lemma InterruptedRecvIsTransparent(script: seq<RecvResult>, nleft: nat)
    requires nleft > 0 && ReadDecided(script, nleft)
    ensures ReadDecided([RecvError(EINTR)] + script, nleft)
    ensures var o, o' := ReadSpec(script, nleft), ReadSpec([RecvError(EINTR)] + script, nleft);
      o'.gathered == o.gathered && ReturnValue(o') == ReturnValue(o) && o'.calls == o.calls + 1
  {
    assert ([RecvError(EINTR)] + script)[1..] == script;
  }

  /** The bytes of the `Received` chunks of a script, in order. */
  function Flatten(script: seq<RecvResult>): seq<byte> {
    if script == [] then []
    else (if script[0].Received? then script[0].chunk else []) + Flatten(script[1..])
  }

  /** The gathered bytes are the chunks received by the calls made, concatenated in order. */
  lemma {:induction false} GatheredIsConcatenation(script: seq<RecvResult>, nleft: nat)
    requires ReadDecided(script, nleft)
    ensures ReadSpec(script, nleft).gathered == Flatten(script[..ReadSpec(script, nleft).calls])
    decreases |script|
  {
    var o := ReadSpec(script, nleft);
    if nleft > 0 {
      var rest := script[1..];
      assert script[..o.calls] == [script[0]] + script[..o.calls][1..];
      match script[0]
      case RecvError(e) =>
        if e == EINTR {
          GatheredIsConcatenation(rest, nleft);
          assert script[..o.calls][1..] == rest[..ReadSpec(rest, nleft).calls];
        } else {
          assert script[..o.calls][1..] == [];
        }
      case PeerClosed =>
        assert script[..o.calls][1..] == [];
      case Received(c) =>
        if c[|c| - 1] == NEWLINE {
          assert script[..o.calls][1..] == [];
          assert c + [] == c;
        } else {
          GatheredIsConcatenation(rest, nleft - |c|);
          assert script[..o.calls][1..] == rest[..ReadSpec(rest, nleft - |c|).calls];
        }
    }
  }

  /**
   * `readn` returns fewer bytes than asked only when the peer closed the
   * stream or the last chunk ended in a newline; in both cases it is the last
   * call made that said so.
   */
  lemma {:induction false} ShortReadReason(script: seq<RecvResult>, nleft: nat)
    requires ReadDecided(script, nleft)
    requires ReadSpec(script, nleft).ReadDone? && |ReadSpec(script, nleft).gathered| < nleft
    ensures var o := ReadSpec(script, nleft);
      && 1 <= o.calls
      && (|| script[o.calls - 1] == PeerClosed
          || (script[o.calls - 1].Received? && o.gathered != [] && o.gathered[|o.gathered| - 1] == NEWLINE))
    decreases |script|
  {
    var o, rest := ReadSpec(script, nleft), script[1..];
    match script[0]
    case RecvError(e) =>
      var o' := ReadSpec(rest, nleft);
      assert o == After([], 1, o');
      ShortReadReason(rest, nleft);
      ShortEndShifts(script, [], o');
    case PeerClosed =>
    case Received(c) =>
      if c[|c| - 1] != NEWLINE {
        var o' := ReadSpec(rest, nleft - |c|);
        assert o == After(c, 1, o');
        ShortReadReason(rest, nleft - |c|);
        ShortEndShifts(script, c, o');
      }
  }

  /** A read that ended on end of stream or on a newline still does so after a call that did not end it. */
  lemma ShortEndShifts(script: seq<RecvResult>, c: seq<byte>, o': ReadOutcome)
    requires script != [] && 1 <= o'.calls <= |script| - 1
    requires || script[1..][o'.calls - 1] == PeerClosed
             || (script[1..][o'.calls - 1].Received? && o'.gathered != [] && o'.gathered[|o'.gathered| - 1] == NEWLINE)
    ensures var o := After(c, 1, o');
      && 1 <= o.calls
      && (|| script[o.calls - 1] == PeerClosed
          || (script[o.calls - 1].Received? && o.gathered != [] && o.gathered[|o.gathered| - 1] == NEWLINE))
  {
    var o := After(c, 1, o');
    assert script[o.calls - 1] == script[1..][o'.calls - 1];
    if o'.gathered != [] {
      assert o.gathered[|o.gathered| - 1] == o'.gathered[|o'.gathered| - 1];
    }
  }

  /**
   * `readn` fails only on an error other than EINTR, made by its last call;
   * every earlier error was EINTR.
   */
  lemma {:induction false} ReadFailureReason(script: seq<RecvResult>, nleft: nat)
    requires ReadDecided(script, nleft)
    requires ReadSpec(script, nleft).ReadFailed?
    ensures var k := ReadSpec(script, nleft).calls;
      && 1 <= k
      && script[k - 1].RecvError? && script[k - 1].errno != EINTR
      && (forall j :: 0 <= j < k - 1 && script[j].RecvError? ==> script[j].errno == EINTR)
    decreases |script|
  {
    var o, rest := ReadSpec(script, nleft), script[1..];
    match script[0]
    case RecvError(e) =>
      if e == EINTR {
        var o' := ReadSpec(rest, nleft);
        assert o == After([], 1, o');
        ReadFailureReason(rest, nleft);
        FailureShifts(script, o'.calls);
      }
    case Received(c) =>
      var o' := ReadSpec(rest, nleft - |c|);
      assert o == After(c, 1, o');
      ReadFailureReason(rest, nleft - |c|);
      FailureShifts(script, o'.calls);
  }

  /** A failure on call `k` of the rest of a script is a failure on call `k + 1` of the script, after a call that did not fail. */
  lemma FailureShifts(script: seq<RecvResult>, k: nat)
    requires script != [] && (script[0].Received? || script[0] == RecvError(EINTR))
    requires 1 <= k <= |script| - 1
    requires script[1..][k - 1].RecvError? && script[1..][k - 1].errno != EINTR
    requires forall j :: 0 <= j < k - 1 && script[1..][j].RecvError? ==> script[1..][j].errno == EINTR
    ensures script[k].RecvError? && script[k].errno != EINTR
    ensures forall j :: 0 <= j < k && script[j].RecvError? ==> script[j].errno == EINTR
  {
    assert forall j :: 1 <= j < |script| ==> script[j] == script[1..][j - 1];
  }

  /** Two outcomes that `readn`'s caller cannot tell apart: same return value, same bytes. */
  predicate SameData(o: ReadOutcome, o': ReadOutcome) {
    o.ReadFailed? == o'.ReadFailed? && o.gathered == o'.gathered
  }

  /** The script that delivers the given chunks, one per `recv`. */
  function Deliveries(cs: seq<seq<byte>>): (s: seq<RecvResult>)
    ensures |s| == |cs|
    ensures forall j :: 0 <= j < |cs| ==> s[j] == Received(cs[j])
  {
    if cs == [] then [] else [Received(cs[0])] + Deliveries(cs[1..])
  }

  function Concat(cs: seq<seq<byte>>): seq<byte> {
    if cs == [] then [] else cs[0] + Concat(cs[1..])
  }

  /** Chunks that a `readn` can gather one after another: non-empty, and only the last may end in a newline. */
  predicate Splittable(cs: seq<seq<byte>>) {
    && (forall j :: 0 <= j < |cs| ==> cs[j] != [])
    && (forall j :: 0 <= j < |cs| - 1 ==> cs[j][|cs[j]| - 1] != NEWLINE)
  }

  lemma {:induction false} ConcatLast(cs: seq<seq<byte>>)
    requires |cs| >= 1 && Splittable(cs)
    ensures |Concat(cs)| >= |cs[|cs| - 1]| >= 1
    ensures Concat(cs)[|Concat(cs)| - 1] == cs[|cs| - 1][|cs[|cs| - 1]| - 1]
    decreases |cs|
  {
    if |cs| > 1 {
      ConcatLast(cs[1..]);
      assert cs[1..][|cs| - 2] == cs[|cs| - 1];
    } else {
      assert Concat(cs) == cs[0] + [];
    }
  }

  /** A first `recv` that delivers no more than was asked for. */
  lemma ChunkBound(c: seq<byte>, s: seq<RecvResult>, nleft: nat)
    requires nleft > 0 && ReadDecided([Received(c)] + s, nleft)
    ensures 0 < |c| <= nleft
  {
    assert ([Received(c)] + s)[0] == Received(c);
  }

  /** A first `recv` whose chunk ends in a newline ends the read with that chunk. */
  lemma ChunkNewline(c: seq<byte>, s: seq<RecvResult>, nleft: nat)
    requires nleft > 0 && 0 < |c| <= nleft && c[|c| - 1] == NEWLINE
    ensures ReadDecided([Received(c)] + s, nleft)
    ensures ReadSpec([Received(c)] + s, nleft) == ReadDone(c, 1)
  {
    assert ([Received(c)] + s)[0] == Received(c);
  }

  /** A first `recv` whose chunk does not end in a newline: the read goes on with the rest. */
  lemma ChunkContinue(c: seq<byte>, s: seq<RecvResult>, nleft: nat)
    requires nleft > 0 && 0 < |c| <= nleft && c[|c| - 1] != NEWLINE
    ensures ReadDecided([Received(c)] + s, nleft) == ReadDecided(s, nleft - |c|)
    ensures ReadDecided(s, nleft - |c|) ==>
      ReadSpec([Received(c)] + s, nleft) == After(c, 1, ReadSpec(s, nleft - |c|))
  {
    assert ([Received(c)] + s)[0] == Received(c) && ([Received(c)] + s)[1..] == s;
  }

  /** Splittable chunks less their first: still splittable, and ending where the whole does. */
  lemma SplitFirst(cs: seq<seq<byte>>)
    requires |cs| >= 2 && Splittable(cs)
    ensures Splittable(cs[1..]) && Concat(cs) == cs[0] + Concat(cs[1..])
    ensures |Concat(cs[1..])| >= 1 && cs[0] != [] && cs[0][|cs[0]| - 1] != NEWLINE
    ensures Concat(cs)[|Concat(cs)| - 1] == Concat(cs[1..])[|Concat(cs[1..])| - 1]
  {
    var tail := cs[1..];
    assert Splittable(tail) by {
      forall j | 0 <= j < |tail| - 1 ensures tail[j][|tail[j]| - 1] != NEWLINE {
        assert tail[j] == cs[j + 1];
      }
    }
    ConcatLast(tail);
  }

  lemma DeliveriesCons(cs: seq<seq<byte>>, rest: seq<RecvResult>)
    requires cs != []
    ensures Deliveries(cs) + rest == [Received(cs[0])] + (Deliveries(cs[1..]) + rest)
  {
  }

  /**
   * `readn` over chunks delivered one per call, the last ending in a
   * newline: it gathers them all and stops.
   */
  lemma {:induction false} ReadOfLineDeliveries(cs: seq<seq<byte>>, rest: seq<RecvResult>, nleft: nat)
    requires |cs| >= 1 && Splittable(cs) && |Concat(cs)| <= nleft
    requires Concat(cs)[|Concat(cs)| - 1] == NEWLINE
    ensures ReadDecided(Deliveries(cs) + rest, nleft)
    ensures ReadSpec(Deliveries(cs) + rest, nleft) == ReadDone(Concat(cs), |cs|)
    decreases |cs|
  {
    DeliveriesCons(cs, rest);
    var c, tail := cs[0], cs[1..];
    if |cs| == 1 {
      assert Concat(cs) == c + [] == c;
      assert Deliveries(cs) + rest == [Received(c)] + rest;
      ChunkNewline(c, rest, nleft);
    } else {
      SplitFirst(cs);
      ReadOfLineDeliveries(tail, rest, nleft - |c|);
      ChunkContinue(c, Deliveries(tail) + rest, nleft);
    }
  }

  /**
   * `readn` over chunks delivered one per call, none ending in a newline:
   * it gathers them all and goes on with what follows.
   */
  lemma {:induction false} ReadOfOpenDeliveries(cs: seq<seq<byte>>, rest: seq<RecvResult>, nleft: nat)
    requires |cs| >= 1 && Splittable(cs) && |Concat(cs)| <= nleft
    requires Concat(cs)[|Concat(cs)| - 1] != NEWLINE && ReadDecided(rest, nleft - |Concat(cs)|)
    ensures ReadDecided(Deliveries(cs) + rest, nleft)
    ensures ReadSpec(Deliveries(cs) + rest, nleft) == After(Concat(cs), |cs|, ReadSpec(rest, nleft - |Concat(cs)|))
    decreases |cs|
  {
    DeliveriesCons(cs, rest);
    var c, tail := cs[0], cs[1..];
    if |cs| == 1 {
      assert Concat(cs) == c + [] == c;
      assert Deliveries(cs) + rest == [Received(c)] + rest;
      ChunkContinue(c, rest, nleft);
    } else {
      SplitFirst(cs);
      ReadOfOpenDeliveries(tail, rest, nleft - |c|);
      ChunkContinue(c, Deliveries(tail) + rest, nleft);
      AfterAfter(c, 1, Concat(tail), |tail|, ReadSpec(rest, nleft - |Concat(cs)|));
    }
  }

  /**
   * Delivery in small pieces is invisible to `readn` as long as no piece but
   * the last ends in a newline: the caller sees what one chunk holding all
   * the bytes would have given.
   */
  lemma ChunkingIsInvisible(cs: seq<seq<byte>>, rest: seq<RecvResult>, nleft: nat)
    requires |cs| >= 1 && Splittable(cs)
    requires ReadDecided([Received(Concat(cs))] + rest, nleft)
    ensures ReadDecided(Deliveries(cs) + rest, nleft)
    ensures SameData(ReadSpec(Deliveries(cs) + rest, nleft), ReadSpec([Received(Concat(cs))] + rest, nleft))
  {
    if nleft > 0 {
      var all := Concat(cs);
      ChunkBound(all, rest, nleft);
      if all[|all| - 1] == NEWLINE {
        ChunkNewline(all, rest, nleft);
        ReadOfLineDeliveries(cs, rest, nleft);
      } else {
        ChunkContinue(all, rest, nleft);
        ReadOfOpenDeliveries(cs, rest, nleft);
      }
    }
  }

  /**
   * Only the last byte of a chunk is looked at: a newline inside a chunk does
   * not end the read, while the same bytes split just after the newline do.
   */
  lemma MidChunkNewlineDoesNotStop()
    ensures ReadDecided([Received([97, NEWLINE, 98]), PeerClosed], 5)
    ensures ReadSpec([Received([97, NEWLINE, 98]), PeerClosed], 5) == ReadDone([97, NEWLINE, 98], 2)
    ensures ReadDecided([Received([97, NEWLINE]), Received([98]), PeerClosed], 5)
    ensures ReadSpec([Received([97, NEWLINE]), Received([98]), PeerClosed], 5) == ReadDone([97, NEWLINE], 1)
  {
    var s := [Received([97, NEWLINE, 98]), PeerClosed];
    assert s[1..] == [PeerClosed];
    assert [97, NEWLINE, 98] + [] == [97, NEWLINE, 98];
  }

  /**
   * The script decides a `writen` of `nleft` more bytes: every accepted count
   * is positive and no more than what is left, and the script runs until the
   * loop stops.
   */
  predicate WriteDecided(script: seq<WriteResult>, nleft: nat)
    decreases |script|
  {
    nleft == 0 ||
    (|script| > 0 &&
     match script[0]
     case WriteError(e) => e != EINTR || WriteDecided(script[1..], nleft)
     case Written(k) => 0 < k <= nleft && WriteDecided(script[1..], nleft - k))
  }

  /** What a `writen` ends with: whether it failed, the bytes accepted, the `write` calls made. */
  datatype WriteOutcome = WriteOutcome(failed: bool, sent: nat, calls: nat)

  function Shift(sent: nat, calls: nat, o: WriteOutcome): WriteOutcome {
    WriteOutcome(o.failed, sent + o.sent, calls + o.calls)
  }

  /**
   * The outcome of `writen` over a script.  It succeeds only once all the
   * bytes were accepted and fails with fewer.
   */
  function WriteSpec(script: seq<WriteResult>, nleft: nat): (o: WriteOutcome)
    requires WriteDecided(script, nleft)
    ensures o.failed ==> o.sent < nleft
    ensures !o.failed ==> o.sent == nleft
    ensures o.calls <= |script|
    decreases |script|
  {
    if nleft == 0 then WriteOutcome(false, 0, 0)
    else
      match script[0]
      case WriteError(e) =>
        if e == EINTR then Shift(0, 1, WriteSpec(script[1..], nleft)) else WriteOutcome(true, 0, 1)
      case Written(k) => Shift(k, 1, WriteSpec(script[1..], nleft - k))
  }

  /** A step of `writen` that retries: an interrupted `write`. */
  lemma WriteStepInterrupted(pending: seq<WriteResult>, sent: nat, i: nat, nleft: nat)
    requires pending != [] && nleft > 0 && WriteDecided(pending, nleft)
    requires pending[0] == WriteError(EINTR)
    ensures WriteDecided(pending[1..], nleft)
    ensures Shift(sent, i, WriteSpec(pending, nleft)) == Shift(sent, i + 1, WriteSpec(pending[1..], nleft))
  {
  }

  /** A step of `writen` that goes on: `k` bytes accepted. */
  lemma WriteStepWritten(pending: seq<WriteResult>, sent: nat, i: nat, nleft: nat, k: nat)
    requires pending != [] && nleft > 0 && WriteDecided(pending, nleft)
    requires pending[0] == Written(k)
    ensures 0 < k <= nleft && WriteDecided(pending[1..], nleft - k)
    ensures Shift(sent, i, WriteSpec(pending, nleft)) == Shift(sent + k, i + 1, WriteSpec(pending[1..], nleft - k))
  {
  }

  /** A step of `writen` that ends it: an error other than EINTR. */
  lemma WriteStepFailed(pending: seq<WriteResult>, sent: nat, i: nat, nleft: nat)
    requires pending != [] && nleft > 0
    requires pending[0].WriteError? && pending[0].errno != EINTR
    ensures Shift(sent, i, WriteSpec(pending, nleft)) == WriteOutcome(true, sent, i + 1)
  {
  }

  /**
   * `writen(fd, vptr, n)`: write `buf[0..n)` until all of it is accepted.
   * It returns `n` on success and -1 on an error other than EINTR; `wire` is
   * what the peer was given, always `buf` from its start, in order.  (The
   * source's own `Server::Writen` is the wrapper that logs a short write;
   * logging is not modelled.)
   */
  method Writen(buf: array<byte>, n: nat, script: seq<WriteResult>) returns (r: int, wire: seq<byte>, calls: nat)
    requires n <= buf.Length
    requires WriteDecided(script, n)
    ensures var o := WriteSpec(script, n);
      && r == (if o.failed then -1 else n)
      && wire == buf[..o.sent]
      && calls == o.calls
    ensures r == n ==> wire == buf[..n]
  {
    var nleft: nat := n;
    var p: nat := 0;
    var i: nat := 0;
    var pending := script;
    wire := [];
    while nleft > 0
      invariant p + nleft == n
      invariant WriteDecided(pending, nleft)
      invariant wire == buf[..p]
      invariant WriteSpec(script, n) == Shift(p, i, WriteSpec(pending, nleft))
      decreases |pending|
    {
      var res := pending[0];
      match res {
        case WriteError(e) =>
          if e == EINTR {
            WriteStepInterrupted(pending, p, i, nleft);
            pending, i := pending[1..], i + 1;
            continue;
          }
          WriteStepFailed(pending, p, i, nleft);
          r, calls := -1, i + 1;
          return;
        case Written(k) =>
          WriteStepWritten(pending, p, i, nleft, k);
          wire := wire + buf[p..p + k];
          assert wire == buf[..p + k];
          nleft, p, i, pending := nleft - k, p + k, i + 1, pending[1..];
      }
    }
    r, calls := n, i;
  }

  /** A write of zero bytes makes no `write` call and succeeds. */
  lemma WriteOfZeroLength(script: seq<WriteResult>)
    ensures WriteDecided(script, 0) && WriteSpec(script, 0) == WriteOutcome(false, 0, 0)
  {
  }

  /** An interrupted `write` changes nothing but the number of calls. */
  lemma InterruptedWriteIsTransparent(script: seq<WriteResult>, nleft: nat)
    requires nleft > 0 && WriteDecided(script, nleft)
    ensures WriteDecided([WriteError(EINTR)] + script, nleft)
    ensures var o, o' := WriteSpec(script, nleft), WriteSpec([WriteError(EINTR)] + script, nleft);
      o'.failed == o.failed && o'.sent == o.sent && o'.calls == o.calls + 1
  {
    assert ([WriteError(EINTR)] + script)[1..] == script;
  }

  /** The total of the counts accepted by the successful calls of a script. */
  function SumWritten(script: seq<WriteResult>): nat {
    if script == [] then 0
    else (if script[0].Written? then script[0].count else 0) + SumWritten(script[1..])
  }

  /** The bytes sent are the sum of the counts the calls made accepted; on success, exactly `nleft`. */
  lemma {:induction false} SentIsSumOfCounts(script: seq<WriteResult>, nleft: nat)
    requires WriteDecided(script, nleft)
    ensures WriteSpec(script, nleft).sent == SumWritten(script[..WriteSpec(script, nleft).calls])
    decreases |script|
  {
    var o := WriteSpec(script, nleft);
    if nleft > 0 {
      var rest := script[1..];
      assert script[..o.calls] == [script[0]] + script[..o.calls][1..];
      match script[0]
      case WriteError(e) =>
        if e == EINTR {
          SentIsSumOfCounts(rest, nleft);
          assert script[..o.calls][1..] == rest[..WriteSpec(rest, nleft).calls];
        } else {
          assert script[..o.calls][1..] == [];
        }
      case Written(k) =>
        SentIsSumOfCounts(rest, nleft - k);
        assert script[..o.calls][1..] == rest[..WriteSpec(rest, nleft - k).calls];
    }
  }

  /** `writen` fails only on an error other than EINTR, made by its last call; every earlier error was EINTR. */
  lemma {:induction false} WriteFailureReason(script: seq<WriteResult>, nleft: nat)
    requires WriteDecided(script, nleft)
    requires WriteSpec(script, nleft).failed
    ensures var k := WriteSpec(script, nleft).calls;
      && 1 <= k && script[k - 1].WriteError? && script[k - 1].errno != EINTR
      && (forall j :: 0 <= j < k - 1 && script[j].WriteError? ==> script[j].errno == EINTR)
    decreases |script|
  {
    var rest := script[1..];
    match script[0]
    case WriteError(e) =>
      if e == EINTR {
        ReduceWriteFailure(script, nleft);
      }
    case Written(k) =>
      ReduceWriteFailure(script, nleft);
  }

  lemma {:induction false} ReduceWriteFailure(script: seq<WriteResult>, nleft: nat)
    requires WriteDecided(script, nleft) && nleft > 0
    requires WriteSpec(script, nleft).failed
    requires script[0].Written? || script[0] == WriteError(EINTR)
    ensures var k := WriteSpec(script, nleft).calls;
      && 1 <= k && script[k - 1].WriteError? && script[k - 1].errno != EINTR
      && (forall j :: 0 <= j < k - 1 && script[j].WriteError? ==> script[j].errno == EINTR)
    decreases |script|, 0
  {
    var rest := script[1..];
    var m := if script[0].Written? then nleft - script[0].count else nleft;
    WriteFailureReason(rest, m);
    assert forall j :: 1 <= j < |script| ==> script[j] == rest[j - 1];
  }

  /** A peer that takes one byte per call still gets all `n` bytes, in `n` calls. */
  function OneByteWrites(n: nat): (s: seq<WriteResult>)
    ensures |s| == n
  {
    if n == 0 then [] else [Written(1)] + OneByteWrites(n - 1)
  }

  lemma {:induction false} OneBytePerCall(n: nat)
    ensures WriteDecided(OneByteWrites(n), n)
    ensures WriteSpec(OneByteWrites(n), n) == WriteOutcome(false, n, n)
    decreases n
  {
    if n > 0 {
      OneBytePerCall(n - 1);
      assert OneByteWrites(n)[0] == Written(1) && OneByteWrites(n)[1..] == OneByteWrites(n - 1);
    }
  }

  /** `(size_t)(n - 1)`: the count `StrEcho` hands to `Writen` as written. */
  function EchoCountAsWritten(n: int): nat {
    (n - 1) % 0x1_0000_0000_0000_0000
  }

  /**
   * When `readn` gathered nothing (0) or failed (-1), the count as written
   * wraps to nearly 2^64, far beyond the 128-byte buffer it refers to.
   */
  lemma EchoCountWrapsOnEmptyRead()
    ensures EchoCountAsWritten(0) == 0xFFFF_FFFF_FFFF_FFFF
    ensures EchoCountAsWritten(-1) == 0xFFFF_FFFF_FFFF_FFFE
    ensures EchoCountAsWritten(0) > ECHO_BUFFER_SIZE && EchoCountAsWritten(-1) > ECHO_BUFFER_SIZE
  {
  }

  /** The count `StrEcho` writes back: one less than what was read, nothing when nothing was read. */
  function EchoCount(n: int): (m: nat)
    ensures n >= 1 ==> m == n - 1
    ensures 1 <= n <= ECHO_BUFFER_SIZE ==> m == EchoCountAsWritten(n)
    ensures n <= 0 ==> m == 0
  {
    if n >= 1 then n - 1 else 0
  }

  /** The bytes the peer gets from `StrEcho`: the first `EchoCount` bytes read, as far as `writen` got. */
  function Echoed(recv: seq<RecvResult>, send: seq<WriteResult>): seq<byte>
    requires ReadDecided(recv, ECHO_BUFFER_SIZE)
    requires WriteDecided(send, EchoCount(ReturnValue(ReadSpec(recv, ECHO_BUFFER_SIZE))))
  {
    var o := ReadSpec(recv, ECHO_BUFFER_SIZE);
    o.gathered[..WriteSpec(send, EchoCount(ReturnValue(o))).sent]
  }

  /**
   * `StrEcho`: read into a 128-byte buffer with `readn`, then `writen` all
   * but the last byte read.  A read that gathered nothing or failed writes
   * nothing.
   */
  method StrEcho(recv: seq<RecvResult>, send: seq<WriteResult>) returns (wire: seq<byte>)
    requires ReadDecided(recv, ECHO_BUFFER_SIZE)
    requires WriteDecided(send, EchoCount(ReturnValue(ReadSpec(recv, ECHO_BUFFER_SIZE))))
    ensures wire == Echoed(recv, send)
  {
    var buf := new byte[ECHO_BUFFER_SIZE];
    var n, _ := Readn(buf, ECHO_BUFFER_SIZE, recv);
    var _, w, _ := Writen(buf, EchoCount(n), send);
    wire := w;
  }

  /**
   * The echo is always a prefix of what was read less its last byte, all of
   * it when `writen` succeeds, and empty when the read failed or gathered
   * nothing.
   */
  lemma EchoIsReadLessLastByte(recv: seq<RecvResult>, send: seq<WriteResult>)
    requires ReadDecided(recv, ECHO_BUFFER_SIZE)
    requires WriteDecided(send, EchoCount(ReturnValue(ReadSpec(recv, ECHO_BUFFER_SIZE))))
    ensures var o := ReadSpec(recv, ECHO_BUFFER_SIZE);
      var e := Echoed(recv, send);
      && (o.ReadFailed? || o.gathered == [] ==> e == [])
      && (o.ReadDone? && o.gathered != [] ==> e <= o.gathered[..|o.gathered| - 1])
      && (o.ReadDone? && o.gathered != [] && !WriteSpec(send, |o.gathered| - 1).failed ==>
            e == o.gathered[..|o.gathered| - 1])
  {
  }

  /** A client sending "hello\n" in one piece gets "hello" back. */
  lemma EchoOfHello()
    ensures var recv, send := [Received([104, 101, 108, 108, 111, NEWLINE])], [Written(5)];
      ReadDecided(recv, ECHO_BUFFER_SIZE)
      && WriteDecided(send, EchoCount(ReturnValue(ReadSpec(recv, ECHO_BUFFER_SIZE))))
      && Echoed(recv, send) == [104, 101, 108, 108, 111]
  {
  }

  /** A chunk without a final newline and then end of stream: `readn` returns the chunk. */
  lemma ReadOfUnterminatedLine(c: seq<byte>, nleft: nat)
    requires 0 < |c| < nleft && c[|c| - 1] != NEWLINE
    ensures ReadDecided([Received(c), PeerClosed], nleft)
    ensures ReadSpec([Received(c), PeerClosed], nleft) == ReadDone(c, 2)
  {
    var closed := [PeerClosed];
    assert ReadSpec(closed, nleft - |c|) == ReadDone([], 1);
    ChunkContinue(c, closed, nleft);
    assert c + [] == c;
    assert [Received(c)] + closed == [Received(c), PeerClosed];
  }

  /**
   * The trim is unconditional: a client that sends a line without its
   * newline and closes gets it back less its last byte, e.g. "ab" for "abc".
   */
  lemma EchoDropsLastByteWithoutNewline(c: seq<byte>, send: seq<WriteResult>)
    requires 0 < |c| < ECHO_BUFFER_SIZE && c[|c| - 1] != NEWLINE
    requires WriteDecided(send, |c| - 1) && !WriteSpec(send, |c| - 1).failed
    ensures ReadDecided([Received(c), PeerClosed], ECHO_BUFFER_SIZE)
    ensures WriteDecided(send, EchoCount(ReturnValue(ReadSpec([Received(c), PeerClosed], ECHO_BUFFER_SIZE))))
    ensures Echoed([Received(c), PeerClosed], send) == c[..|c| - 1]
  {
    ReadOfUnterminatedLine(c, ECHO_BUFFER_SIZE);
  }

  /**
   * The port half of `GetClientId`: `ntohs` of the record's port field, the
   * port `Endpoint::ToString` would show.  The address half is `inet_ntop`
   * of the record's address.
   */
  function GetClientId(lib: Socket.InetLib, host: Endianness, client: Socket.SockaddrIn): (id: (Option<string>, uint16))
    ensures id.1 == Socket.ShownPort(host, Socket.V4(client))
    ensures id.0 == Socket.ShownHost(lib, host, Socket.V4(client))
  {
    (lib.ntop4(Store32(host, client.addr)), Ntohs(host, client.port))
  }

  /** For a client record built from text and a port, `GetClientId` gives that port back. */
  lemma ClientIdOfTextEndpoint(lib: Socket.InetLib, host: Endianness, text: string, port: uint16)
    requires Socket.FromText(lib, host, text, port).Success?
    requires Socket.FromText(lib, host, text, port).value.V4?
    ensures var s := Socket.FromText(lib, host, text, port).value.sin;
      GetClientId(lib, host, s).1 == port
      && GetClientId(lib, host, s).0 == lib.ntop4(lib.pton4(text).value)
  {
    Store32Load32(host, lib.pton4(text).value);
  }
}
