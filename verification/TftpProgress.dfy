/** The TFTP client gets there: what has to arrive for a transfer to succeed, and what it
    answers. */
module TftpProgress {
  import opened Words
  import opened Tftp

  /** The server reports no error and the deadline does not pass. */
  ghost predicate Undisturbed(es: seq<Event>) {
    forall i :: 0 <= i < |es| ==> !Disturbs(es[i])
  }

  predicate Disturbs(e: Event) {
    e.Deadline? || (e.Datagram? && |e.bytes| >= 4 && Word(e.bytes, 0) == OPCODE_ERROR)
  }

  /** Among the arrivals are blocks 1 to the last, in that order: block `b` is arrival `at[b - 1]`. */
  ghost predicate Delivered(file: Bytes, port: u16, es: seq<Event>, at: seq<nat>) {
    && |at| == BlockCount(file)
    && (forall b :: 0 <= b < |at| ==> at[b] < |es| && Brings(es[at[b]], file, port, b + 1))
    && (forall a, b :: 0 <= a < b < |at| ==> at[a] < at[b])
  }

  predicate Brings(e: Event, file: Bytes, port: u16, b: nat) {
    Carries(e, file, b) && e.port == port
  }

  /** The client has returned the length of the file, with the file in the buffer. */
  predicate Fetched(c: Client, file: Bytes) {
    c.result == Some(|file|) && c.got == file
  }

  /** The client has returned so, or has at least `m` blocks and waits for the next. */
  ghost predicate Got(c: Client, file: Bytes, m: nat) {
    Fetched(c, file) || (c.result.None? && exists k: nat :: m <= k && InStep(c, file, k))
  }

  lemma HonestTake(file: Bytes, port: u16, es: seq<Event>, n: nat)
    requires Honest(file, port, es) && n <= |es|
    ensures Honest(file, port, es[..n])
    decreases |es| - n
  {
    if n < |es| {
      HonestTake(file, port, es, n + 1);
      assert es[..n + 1] == es[..n] + [es[n]];
      HonestPrefix(file, port, es[..n], es[n]);
    } else {
      assert es[..n] == es;
    }
  }

  /** The last block ends the file; each other one is followed by the next. */
  lemma TakeNext(c: Client, file: Bytes, k: nat, cap: nat, e: Event)
    requires InStep(c, file, k) && c.result.None? && Carries(e, file, k + 1) && BlockCount(file) <= TWO16 && |file| <= cap
    ensures Got(TakeBlock(c, cap, Word(e.bytes, 2), e.bytes[4..]), file, k + 1)
  {
    var d := TakeBlock(c, cap, Word(e.bytes, 2), e.bytes[4..]);
    NextNumber(k);
    assert file[..k * BLOCK] + BlockOf(file, k + 1) == file[..Min((k + 1) * BLOCK, |file|)];
    if (k + 1) * BLOCK <= |file| {
      assert InStep(d, file, k + 1);
    } else {
      assert file[..|file|] == file;
    }
  }

  /** Any other block leaves the client where it was. */
  lemma TakeOther(c: Client, file: Bytes, k: nat, cap: nat, e: Event, b: nat)
    requires InStep(c, file, k) && c.result.None? && Carries(e, file, b) && b != k + 1 && BlockCount(file) <= TWO16
    ensures var d := TakeBlock(c, cap, Word(e.bytes, 2), e.bytes[4..]);
            d.result.None? && InStep(d, file, k)
  {
    if Word(e.bytes, 2) == c.expected {
      RightBlock(k, b, BlockCount(file));
    }
  }

  /** One arrival never loses what the client has, and the block it waits for brings it on. */
  lemma StepGets(c: Client, file: Bytes, port: u16, m: nat, cap: nat, e: Event)
    requires Got(c, file, m) && BlockCount(file) <= TWO16 && |file| <= cap && !Disturbs(e)
    requires Heeded(c, e) ==> exists b: nat :: Carries(e, file, b)
    ensures Got(Step(c, cap, e), file, m)
    ensures Brings(e, file, port, m + 1) && (c.locked ==> c.port == port) ==> Got(Step(c, cap, e), file, m + 1)
  {
    if c.result.None? {
      var k: nat :| m <= k && InStep(c, file, k);
      if Heeded(c, e) {
        var b: nat :| Carries(e, file, b);
        var d := c.(port := e.port, locked := true);
        assert InStep(d, file, k);
        if Carries(e, file, k + 1) {
          TakeNext(d, file, k, cap, e);
        } else {
          TakeOther(d, file, k, cap, e, b);
        }
      } else {
        assert InStep(Step(c, cap, e), file, k);
      }
    }
  }

  /** At arrival `n` the client listens to the server alone. */
  ghost predicate Listening(file: Bytes, port: u16, cap: nat, es: seq<Event>, n: nat)
    requires n < |es|
  {
    var c := Run(cap, es[..n]);
    && Run(cap, es[..n + 1]) == Step(c, cap, es[n]) && (c.locked ==> c.port == port) && !Disturbs(es[n])
    && (Heeded(c, es[n]) ==> exists b: nat :: Carries(es[n], file, b))
  }

  lemma Listens(file: Bytes, port: u16, cap: nat, es: seq<Event>, n: nat)
    requires Honest(file, port, es) && Undisturbed(es) && BlockCount(file) <= TWO16 && n < |es|
    ensures Listening(file, port, cap, es, n)
  {
    assert es[..n + 1] == es[..n] + [es[n]] && es[..n + 1][..n] == es[..n];
    HonestTake(file, port, es, n + 1);
    HonestPrefix(file, port, es[..n], es[n]);
    StaysInStep(file, port, cap, es[..n]);
    StepAimed(file, port, cap, Run(cap, es[..n]), es[..n], es[n]);
  }

  /** After `n` arrivals, `m` of the blocks delivered in order being among them. */
  lemma {:induction false} GetsOn(file: Bytes, port: u16, cap: nat, es: seq<Event>, at: seq<nat>, n: nat, m: nat)
    requires Delivered(file, port, es, at) && BlockCount(file) <= TWO16 && |file| <= cap
    requires forall i: nat :: i < |es| ==> Listening(file, port, cap, es, i)
    requires n <= |es| && m <= |at| && (m > 0 ==> at[m - 1] < n)
    ensures Got(Run(cap, es[..n]), file, m)
    decreases n
  {
    if n == 0 {
      assert InStep(Run(cap, es[..0]), file, 0);
    } else {
      assert Listening(file, port, cap, es, n - 1);
      if m > 0 && at[m - 1] == n - 1 {
        GetsOn(file, port, cap, es, at, n - 1, m - 1);
        assert Brings(es[at[m - 1]], file, port, m);
        StepGets(Run(cap, es[..n - 1]), file, port, m - 1, cap, es[n - 1]);
      } else {
        GetsOn(file, port, cap, es, at, n - 1, m);
        StepGets(Run(cap, es[..n - 1]), file, port, m, cap, es[n - 1]);
      }
    }
  }

  /** A transfer succeeds whenever the blocks arrive once in order, whatever copies of them
      arrive before, between and after, if the file has at most 65536 blocks and fits the
      buffer, the server reports no error and the deadline does not pass. */
  lemma TransferSucceeds(file: Bytes, port: u16, cap: nat, es: seq<Event>, at: seq<nat>)
    requires Honest(file, port, es) && Undisturbed(es) && Delivered(file, port, es, at)
    requires BlockCount(file) <= TWO16 && |file| <= cap
    ensures Run(cap, es).result == Some(|file|) && Run(cap, es).got == file
  {
    forall i: nat | i < |es| ensures Listening(file, port, cap, es, i) {
      Listens(file, port, cap, es, i);
    }
    GetsOn(file, port, cap, es, at, |es|, BlockCount(file));
    assert es[..|es|] == es;
    NothingLeft(Run(cap, es), file);
  }

  lemma NothingLeft(c: Client, file: Bytes)
    requires Got(c, file, BlockCount(file))
    ensures Fetched(c, file)
  {
    forall k: nat | BlockCount(file) <= k ensures !InStep(c, file, k) {
    }
  }

  /** An error from the server, or the deadline, finds the client waiting. */
  ghost predicate Fails(cap: nat, es: seq<Event>, i: nat) {
    i < |es| && Disturbs(es[i]) && Run(cap, es[..i]).result.None?
  }

  lemma StepFails(c: Client, file: Bytes, k: nat, cap: nat, e: Event)
    requires InStep(c, file, k) && c.result.None? && BlockCount(file) <= TWO16 && |file| <= cap
    requires Heeded(c, e) ==> exists b: nat :: Carries(e, file, b)
    ensures Step(c, cap, e).result == Some(-1) <==> Disturbs(e)
  {
    if !Disturbs(e) {
      assert Got(c, file, 0);
      StepGets(c, file, 0, 0, cap, e);
    }
  }

  /** A transfer to a buffer that is large enough fails exactly if one does. */
  lemma {:induction false} FailsExactly(file: Bytes, port: u16, cap: nat, es: seq<Event>)
    requires Honest(file, port, es) && BlockCount(file) <= TWO16 && |file| <= cap
    ensures Run(cap, es).result == Some(-1) <==> exists i: nat :: Fails(cap, es, i)
  {
    if es != [] {
      var pre, e := es[..|es| - 1], es[|es| - 1];
      assert es == pre + [e];
      HonestPrefix(file, port, pre, e);
      FailsExactly(file, port, cap, pre);
      forall i: nat | i < |pre| ensures Fails(cap, es, i) <==> Fails(cap, pre, i) {
        assert es[..i] == pre[..i];
      }
      assert Fails(cap, es, |pre|) <==> Disturbs(e) && Run(cap, pre).result.None?;
      StaysInStep(file, port, cap, pre);
      StepAimed(file, port, cap, Run(cap, pre), pre, e);
      if Run(cap, pre).result.None? {
        var k: nat :| InStep(Run(cap, pre), file, k);
        StepFails(Run(cap, pre), file, k, cap, e);
      }
    }
  }

  // ---- the answers ----

  /** Each of the first `n` blocks has been acknowledged. */
  ghost predicate AllAcknowledged(acks: seq<u16>, n: nat) {
    forall b: nat :: 1 <= b <= n ==> Acknowledged(acks, b)
  }

  ghost predicate Acknowledged(acks: seq<u16>, b: nat) {
    exists i :: 0 <= i < |acks| && Acknowledges(acks[i], b)
  }

  lemma AcknowledgedMore(acks: seq<u16>, more: seq<u16>, n: nat)
    requires AllAcknowledged(acks, n)
    ensures AllAcknowledged(acks + more, n)
  {
    forall b: nat | 1 <= b <= n ensures Acknowledged(acks + more, b) {
      assert Acknowledged(acks, b);
      var i :| 0 <= i < |acks| && Acknowledges(acks[i], b);
      assert (acks + more)[i] == acks[i];
    }
  }

  lemma AcknowledgedNext(acks: seq<u16>, n: nat, ack: u16)
    requires AllAcknowledged(acks, n) && Acknowledges(ack, n + 1)
    ensures AllAcknowledged(acks + [ack], n + 1)
  {
    AcknowledgedMore(acks, [ack], n);
    assert (acks + [ack])[|acks|] == ack;
    assert Acknowledged(acks + [ack], n + 1);
  }

  /** A client with `k` blocks answers a true block exactly if it takes it or has it last. */
  lemma AnswerIs(c: Client, file: Bytes, k: nat, cap: nat, e: Event, b: nat)
    requires InStep(c, file, k) && c.result.None? && Carries(e, file, b) && BlockCount(file) <= TWO16 && |file| <= cap
    ensures var d := TakeBlock(c, cap, Word(e.bytes, 2), e.bytes[4..]);
            d.acks == c.acks + if b == k + 1 || b % TWO16 == k % TWO16 then [b % TWO16] else []
  {
    if Word(e.bytes, 2) == c.expected {
      RightBlock(k, b, BlockCount(file));
    }
  }

  lemma TakeAcknowledges(c: Client, file: Bytes, k: nat, cap: nat, block: u16, data: Bytes)
    requires InStep(c, file, k) && c.result.None? && AllAcknowledged(c.acks, k) && k < BlockCount(file) <= TWO16
    requires block == c.expected ==> data == BlockOf(file, k + 1)
    ensures var d := TakeBlock(c, cap, block, data); AllAcknowledged(d.acks, Taken(d))
  {
    TakenInStep(c, file, k);
    var d := TakeBlock(c, cap, block, data);
    if block == c.expected && |c.got| + |data| <= cap {
      assert Taken(d) == k + 1;
      AcknowledgedNext(c.acks, k, block);
    } else {
      AcknowledgedMore(c.acks, [block], k);
    }
  }

  lemma StepAcknowledges(c: Client, file: Bytes, k: nat, cap: nat, e: Event)
    requires InStep(c, file, k) && BlockCount(file) <= TWO16 && AllAcknowledged(c.acks, Taken(c))
    requires Heeded(c, e) ==> exists b: nat :: Carries(e, file, b)
    ensures AllAcknowledged(Step(c, cap, e).acks, Taken(Step(c, cap, e)))
  {
    if Heeded(c, e) {
      var b: nat :| Carries(e, file, b);
      var d := c.(port := e.port, locked := true);
      TakenInStep(c, file, k);
      if Word(e.bytes, 2) == c.expected {
        RightBlock(k, b, BlockCount(file));
      }
      TakeAcknowledges(d, file, k, cap, Word(e.bytes, 2), e.bytes[4..]);
    }
  }

  /** On every honest schedule every block that was taken has been acknowledged. */
  lemma {:induction false} TakenIsAcknowledged(file: Bytes, port: u16, cap: nat, es: seq<Event>)
    requires Honest(file, port, es) && BlockCount(file) <= TWO16
    ensures AllAcknowledged(Run(cap, es).acks, Taken(Run(cap, es)))
  {
    if es != [] {
      var pre, e := es[..|es| - 1], es[|es| - 1];
      assert es == pre + [e];
      HonestPrefix(file, port, pre, e);
      TakenIsAcknowledged(file, port, cap, pre);
      StaysInStep(file, port, cap, pre);
      StepAimed(file, port, cap, Run(cap, pre), pre, e);
      var k: nat :| InStep(Run(cap, pre), file, k);
      StepAcknowledges(Run(cap, pre), file, k, cap, e);
    }
  }

  /** And a block that arrives again right after it was taken is acknowledged again, so that a
      server whose acknowledgement was lost goes on; no other arrival is answered. */
  lemma AnswersRight(file: Bytes, port: u16, cap: nat, es: seq<Event>, e: Event, b: nat)
    requires Honest(file, port, es + [e]) && BlockCount(file) < TWO16 && |file| <= cap
    requires Run(cap, es).result.None? && Brings(e, file, port, b)
    ensures var k := Taken(Run(cap, es));
            Step(Run(cap, es), cap, e).acks == Run(cap, es).acks + if b == k || b == k + 1 then [b] else []
  {
    HonestPrefix(file, port, es, e);
    StaysInStep(file, port, cap, es);
    AnswerInStep(Run(cap, es), file, port, cap, e, b);
  }

  lemma AnswerInStep(c: Client, file: Bytes, port: u16, cap: nat, e: Event, b: nat)
    requires c.result.None? && (c.locked ==> c.port == port) && exists k: nat :: InStep(c, file, k)
    requires BlockCount(file) < TWO16 && |file| <= cap && Brings(e, file, port, b)
    ensures Step(c, cap, e).acks == c.acks + if b == Taken(c) || b == Taken(c) + 1 then [b] else []
  {
    var k: nat :| InStep(c, file, k);
    TakenInStep(c, file, k);
    assert k < BlockCount(file) && b % TWO16 == b && k % TWO16 == k;
    AnswerIs(c.(port := e.port, locked := true), file, k, cap, e, b);
  }
}
