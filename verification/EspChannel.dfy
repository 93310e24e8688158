/** One ESP sender and one receiver over a network that drops, reorders, repeats and invents packets. */
module EspChannel {
  import opened Bytes
  import opened Words
  import opened IpPackets
  import opened EspPackets
  import W = ReplayWindow
  import IvGenSeq

  /** A packet the sender's transform has sealed. */
  datatype Sealed = Sealed(seqno: U32, data: seq<Byte>, payload: seq<Byte>, nextHeader: Byte)

  datatype Delivery = Delivery(seqno: U32, inner: Inner)

  datatype State = State(last: U32, sent: seq<Sealed>, rx: Rx, delivered: seq<Delivery>)

  datatype Step = Send(payload: seq<Byte>, nextHeader: Byte) | Arrive(data: seq<Byte>)

  /** The association: SPI, transform and IV generator; the same for both ends. */
  datatype Link = Link(spi: U32, aead: Aead, gen: Option<IvGen>)

  ghost predicate GoodLink(k: Link) {
    && Correct(k.aead) && Aligned(k.aead.block, k.aead.ivLen) && k.aead.block <= 256
    && (k.gen.Some? ==> IvsFit(k.aead, k.gen.value))
  }

  const START := State(0, [], Rx(0, {}), [])

  /** An ideal transform: what authenticates was sealed by the sender, with the same associated data
      and the same plaintext. Everything else the network may do is allowed. */
  ghost predicate Unforged(k: Link, s: State, data: seq<Byte>)
    requires k.aead.block > 0
  {
    WellFormed(k.aead, data) && Opened(k.aead, data).Some? ==>
      exists i | 0 <= i < |s.sent| ::
        && WellFormed(k.aead, s.sent[i].data) && data[..8] == s.sent[i].data[..8]
        && Opened(k.aead, data) == Opened(k.aead, s.sent[i].data)
  }

  ghost predicate Enabled(k: Link, s: State, a: Step)
    requires k.aead.block > 0
  {
    a.Arrive? ==> Unforged(k, s, a.data)
  }

  ghost function Apply(k: Link, s: State, a: Step): State
    requires k.aead.block > 0
  {
    match a
    case Send(payload, nextHeader) =>
      var out := Encrypted(k.aead, k.gen, s.last, k.spi, payload, nextHeader);
      var s1 := s.(last := out.last);
      if out.status == Success then s1.(sent := s.sent + [Sealed(out.last, out.data, payload, nextHeader)]) else s1
    case Arrive(data) =>
      var r := Decrypted(k.aead, s.rx, data);
      var s1 := s.(rx := r.rx);
      if r.status == Success then s1.(delivered := s.delivered + [Delivery(GetU32(data, 4), r.inner.value)]) else s1
  }

  ghost predicate CanRun(k: Link, s: State, steps: seq<Step>)
    requires k.aead.block > 0
    decreases |steps|
  {
    steps != [] ==> Enabled(k, s, steps[0]) && CanRun(k, Apply(k, s, steps[0]), steps[1..])
  }

  ghost function Run(k: Link, s: State, steps: seq<Step>): State
    requires k.aead.block > 0
    decreases |steps|
  {
    if steps == [] then s else Run(k, Apply(k, s, steps[0]), steps[1..])
  }

  // ---- what every run keeps ----

  /** The record of a sealed packet tells the truth about its bytes. */
  ghost predicate SealedOk(k: Link, p: Sealed)
    requires k.aead.block > 0
  {
    && WellFormed(k.aead, p.data) && GetU32(p.data, 0) == k.spi && GetU32(p.data, 4) == p.seqno
    && Opened(k.aead, p.data) == Some(Plaintext(p.payload, k.aead.block, k.aead.ivLen, p.nextHeader))
    && k.gen.Some? && k.gen.value(p.seqno) == Some(IvOf(k, p.data))
  }

  /** The IV a packet carries behind its number. */
  function IvOf(k: Link, data: seq<Byte>): seq<Byte>
    requires |data| >= 8 + k.aead.ivLen
  {
    data[8..8 + k.aead.ivLen]
  }

  ghost predicate SentOk(k: Link, s: State)
    requires k.aead.block > 0
  {
    && (forall i | 0 <= i < |s.sent| :: SealedOk(k, s.sent[i]) && 0 < s.sent[i].seqno <= s.last)
    && (forall i, j | 0 <= i < j < |s.sent| :: s.sent[i].seqno < s.sent[j].seqno)
  }

  /** A delivery is the parse of something that was sent under the same number. */
  ghost predicate Genuine(s: State, d: Delivery) {
    exists i | 0 <= i < |s.sent| ::
      && s.sent[i].seqno == d.seqno && s.sent[i].nextHeader == d.inner.nextHeader
      && Parse(s.sent[i].payload) == Some(d.inner.packet)
  }

  ghost predicate RxOk(s: State) {
    && (forall n | n in s.rx.seen :: 0 < n <= s.rx.highest)
    && (forall n | n in s.rx.seen :: exists i | 0 <= i < |s.sent| :: s.sent[i].seqno == n)
    && (forall i | 0 <= i < |s.delivered| :: s.delivered[i].seqno in s.rx.seen && Genuine(s, s.delivered[i]))
    && (forall i, j | 0 <= i < j < |s.delivered| :: s.delivered[i].seqno != s.delivered[j].seqno)
  }

  ghost predicate Inv(k: Link, s: State)
    requires k.aead.block > 0
  {
    SentOk(k, s) && RxOk(s)
  }

  lemma SendKeeps(k: Link, s: State, a: Step)
    requires GoodLink(k) && Inv(k, s) && a.Send?
    ensures Inv(k, Apply(k, s, a)) && s.sent <= Apply(k, s, a).sent
  {
    var out := Encrypted(k.aead, k.gen, s.last, k.spi, a.payload, a.nextHeader);
    if out.status == Success {
      SentIsWellFormed(k.aead, k.gen.value, s.last, k.spi, a.payload, a.nextHeader);
    }
    var s1 := Apply(k, s, a);
    SentGrows(s, s1);
  }

  lemma SentGrows(s: State, s1: State)
    requires RxOk(s) && s.sent <= s1.sent && s1.rx == s.rx && s1.delivered == s.delivered
    ensures RxOk(s1)
  {
    forall n | n in s.rx.seen ensures exists i | 0 <= i < |s1.sent| :: s1.sent[i].seqno == n {
      var i :| 0 <= i < |s.sent| && s.sent[i].seqno == n;
      assert s1.sent[i].seqno == n;
    }
    forall i | 0 <= i < |s.delivered| ensures Genuine(s1, s.delivered[i]) {
      var d := s.delivered[i];
      assert Genuine(s, d);
      var m :| 0 <= m < |s.sent| && s.sent[m].seqno == d.seqno && s.sent[m].nextHeader == d.inner.nextHeader
               && Parse(s.sent[m].payload) == Some(d.inner.packet);
      assert s1.sent[m] == s.sent[m];
    }
  }

  /** The sequence number is part of the associated data, so what authenticates carries the number it was sent with. */
  lemma AuthenticIsSent(k: Link, s: State, data: seq<Byte>) returns (i: nat)
    requires GoodLink(k) && Inv(k, s) && Unforged(k, s, data)
    requires WellFormed(k.aead, data) && Opened(k.aead, data).Some?
    ensures i < |s.sent| && s.sent[i].seqno == GetU32(data, 4) && GetU32(data, 0) == k.spi
    ensures Opened(k.aead, data) == Some(Plaintext(s.sent[i].payload, k.aead.block, k.aead.ivLen, s.sent[i].nextHeader))
  {
    i :| 0 <= i < |s.sent| && WellFormed(k.aead, s.sent[i].data) && data[..8] == s.sent[i].data[..8]
         && Opened(k.aead, data) == Opened(k.aead, s.sent[i].data);
    assert SealedOk(k, s.sent[i]);
    assert forall j | 0 <= j < 8 :: data[j] == data[..8][j] && s.sent[i].data[j] == s.sent[i].data[..8][j];
  }

  /** The two ways an arrival can end: nothing changes, or a sent packet is accepted under its own number. */
  lemma ArrivalOutcome(k: Link, s: State, data: seq<Byte>) returns (i: nat)
    requires GoodLink(k) && Inv(k, s) && Unforged(k, s, data)
    ensures var r := Decrypted(k.aead, s.rx, data);
            || (r.status != Success && r.rx == s.rx)
            || (i < |s.sent| && var n := s.sent[i].seqno;
                && |data| >= 8 && GetU32(data, 4) == n && n > 0 && n !in s.rx.seen
                && r.rx == Rx(W.Max(s.rx.highest, n), s.rx.seen + {n})
                && (r.status == Success ==> r.inner.Some? && r.inner.value.nextHeader == s.sent[i].nextHeader
                                            && Parse(s.sent[i].payload) == Some(r.inner.value.packet)))
  {
    i := 0;
    if WellFormed(k.aead, data) && Opened(k.aead, data).Some? {
      i := AuthenticIsSent(k, s, data);
      var p := s.sent[i];
      PaddingFits(|p.payload|, k.aead.block, k.aead.ivLen);
      UnpadPlaintext(p.payload, k.aead.block, k.aead.ivLen, p.nextHeader);
    }
  }

  lemma AcceptKeeps(s: State, i: nat)
    requires RxOk(s) && i < |s.sent| && s.sent[i].seqno > 0
    ensures RxOk(s.(rx := Rx(W.Max(s.rx.highest, s.sent[i].seqno), s.rx.seen + {s.sent[i].seqno})))
  {
    var s1 := s.(rx := Rx(W.Max(s.rx.highest, s.sent[i].seqno), s.rx.seen + {s.sent[i].seqno}));
    forall j | 0 <= j < |s.delivered| ensures Genuine(s1, s.delivered[j]) { assert Genuine(s, s.delivered[j]); }
  }

  lemma DeliverKeeps(s: State, d: Delivery)
    requires RxOk(s) && d.seqno in s.rx.seen && Genuine(s, d)
    requires forall j | 0 <= j < |s.delivered| :: s.delivered[j].seqno != d.seqno
    ensures RxOk(s.(delivered := s.delivered + [d]))
  {
    var s1 := s.(delivered := s.delivered + [d]);
    forall j | 0 <= j < |s1.delivered| ensures Genuine(s1, s1.delivered[j]) { assert Genuine(s, s1.delivered[j]); }
  }

  lemma ArriveKeeps(k: Link, s: State, a: Step)
    requires GoodLink(k) && Inv(k, s) && a.Arrive? && Enabled(k, s, a)
    ensures Inv(k, Apply(k, s, a)) && Apply(k, s, a).sent == s.sent
  {
    var i := ArrivalOutcome(k, s, a.data);
    var r := Decrypted(k.aead, s.rx, a.data);
    if r.status == Success || r.rx != s.rx {
      AcceptKeeps(s, i);
      if r.status == Success {
        var d := Delivery(GetU32(a.data, 4), r.inner.value);
        assert Genuine(s.(rx := r.rx), d);
        DeliverKeeps(s.(rx := r.rx), d);
      }
    }
  }

  lemma {:induction false} RunKeeps(k: Link, s: State, steps: seq<Step>)
    requires GoodLink(k) && Inv(k, s) && CanRun(k, s, steps)
    ensures Inv(k, Run(k, s, steps)) && s.sent <= Run(k, s, steps).sent
    decreases |steps|
  {
    if steps != [] {
      var a := steps[0];
      if a.Send? { SendKeeps(k, s, a); } else { ArriveKeeps(k, s, a); }
      RunKeeps(k, Apply(k, s, a), steps[1..]);
    }
  }

  /** Over every run: outbound numbers strictly increase and stay within 32 bits, so none is used twice; each number
      is accepted at most once; and what is delivered under a number is what was sent under it. */
  lemma ReplayFree(k: Link, steps: seq<Step>)
    requires GoodLink(k) && CanRun(k, START, steps)
    ensures var s := Run(k, START, steps);
            && (forall i, j | 0 <= i < j < |s.sent| :: 0 < s.sent[i].seqno < s.sent[j].seqno <= UINT32_MAX)
            && (forall i, j | 0 <= i < j < |s.delivered| :: s.delivered[i].seqno != s.delivered[j].seqno)
            && (forall i | 0 <= i < |s.delivered| :: Genuine(s, s.delivered[i]))
  {
    RunKeeps(k, START, steps);
  }

  /** No number gives the IV of another. */
  ghost predicate Injective(gen: IvGen) {
    forall m: U32, n: U32 | gen(m).Some? && gen(n) == gen(m) :: m == n
  }

  /** Over every run: each packet carries the IV that was generated for its own number, so a generator that never gives
      two numbers the same one never lets two packets have the same IV. */
  lemma IvsDistinct(k: Link, steps: seq<Step>, i: nat, j: nat)
    requires GoodLink(k) && CanRun(k, START, steps) && i < j < |Run(k, START, steps).sent|
    ensures var s := Run(k, START, steps);
            && |s.sent[i].data| >= 8 + k.aead.ivLen && |s.sent[j].data| >= 8 + k.aead.ivLen && k.gen.Some?
            && k.gen.value(s.sent[i].seqno) == Some(s.sent[i].data[8..8 + k.aead.ivLen])
            && (Injective(k.gen.value)
                ==> s.sent[i].data[8..8 + k.aead.ivLen] != s.sent[j].data[8..8 + k.aead.ivLen])
  {
    RunKeeps(k, START, steps);
    var s := Run(k, START, steps);
    assert SealedOk(k, s.sent[i]) && SealedOk(k, s.sent[j]);
  }

  /** With the sequential generator, which answers like this to numbers that go up, they are distinct. */
  lemma SequentialIvs(k: Link, salt: IvGenSeq.Salt, steps: seq<Step>, i: nat, j: nat)
    requires GoodLink(k) && CanRun(k, START, steps) && i < j < |Run(k, START, steps).sent| && k.aead.ivLen >= 8
    requires k.gen == Some((n: U32) => Some(IvGenSeq.Iv(salt, k.aead.ivLen, n)))
    ensures var s := Run(k, START, steps);
            && |s.sent[i].data| >= 8 + k.aead.ivLen && |s.sent[j].data| >= 8 + k.aead.ivLen
            && s.sent[i].data[8..8 + k.aead.ivLen] != s.sent[j].data[8..8 + k.aead.ivLen]
  {
    forall m: U32, n: U32 | k.gen.value(n) == k.gen.value(m) ensures m == n {
      IvGenSeq.IvInjective(salt, k.aead.ivLen, m, n);
    }
    IvsDistinct(k, steps, i, j);
  }

  lemma {:induction false} RunSnoc(k: Link, s: State, steps: seq<Step>, i: nat)
    requires k.aead.block > 0 && i < |steps|
    ensures Run(k, s, steps[..i + 1]) == Apply(k, Run(k, s, steps[..i]), steps[i])
    ensures CanRun(k, s, steps) ==> CanRun(k, s, steps[..i]) && Enabled(k, Run(k, s, steps[..i]), steps[i])
    decreases i
  {
    if i == 0 {
      assert steps[..1][1..] == [];
    } else {
      var s1 := Apply(k, s, steps[0]);
      RunSnoc(k, s1, steps[1..], i - 1);
      assert steps[..i + 1][1..] == steps[1..][..i] && steps[..i][1..] == steps[1..][..i - 1];
    }
  }

  /** Over every run, for every arrival: the receiver changes if and only if the packet has the right shape, a number
      that was not seen and is in the window or above it, and authenticates; any other leaves it as it was. Of those
      that change it, one is not delivered if and only if what was sent under its number is no whole IP packet. */
  lemma ArrivalsMoveWindow(k: Link, steps: seq<Step>, i: nat)
    requires GoodLink(k) && CanRun(k, START, steps) && i < |steps| && steps[i].Arrive?
    ensures var s := Run(k, START, steps[..i]);
            var s1 := Run(k, START, steps[..i + 1]);
            && (s1.rx != s.rx <==> Authentic(k.aead, s.rx, steps[i].data))
            && (s1.rx == s.rx ==> s1 == s)
            && (s1.rx != s.rx && s1.delivered == s.delivered
                <==> Authentic(k.aead, s.rx, steps[i].data) && Unparsable(s, GetU32(steps[i].data, 4)))
  {
    var s, data := Run(k, START, steps[..i]), steps[i].data;
    RunSnoc(k, START, steps, i);
    RunKeeps(k, START, steps[..i]);
    WindowMovesExactly(k.aead, s.rx, data);
    if Authentic(k.aead, s.rx, data) {
      AuthenticPayload(k, s, data);
    }
  }

  /** What was sent under the number is no IP packet. */
  ghost predicate Unparsable(s: State, seqno: U32) {
    exists j | 0 <= j < |s.sent| :: s.sent[j].seqno == seqno && Parse(s.sent[j].payload).None?
  }

  lemma AuthenticPayload(k: Link, s: State, data: seq<Byte>)
    requires GoodLink(k) && Inv(k, s) && Unforged(k, s, data) && Authentic(k.aead, s.rx, data)
    ensures RemovePadding(Opened(k.aead, data).value).None? <==> Unparsable(s, GetU32(data, 4))
  {
    var i := AuthenticIsSent(k, s, data);
    var p := s.sent[i];
    PaddingFits(|p.payload|, k.aead.block, k.aead.ivLen);
    UnpadPlaintext(p.payload, k.aead.block, k.aead.ivLen, p.nextHeader);
    if Unparsable(s, p.seqno) {
      var j :| 0 <= j < |s.sent| && s.sent[j].seqno == p.seqno && Parse(s.sent[j].payload).None?;
      assert i == j;
    }
  }

  /** Over every run: the first arrival of a sent packet less than 128 behind the highest number seen is never
      rejected for its number; if its payload is a whole IP packet it is delivered. */
  lemma FirstArrivalAccepted(k: Link, steps: seq<Step>, i: nat)
    requires GoodLink(k) && CanRun(k, START, steps)
    requires i < |Run(k, START, steps).sent|
    requires var s := Run(k, START, steps);
             s.sent[i].seqno !in s.rx.seen && s.rx.highest - s.sent[i].seqno < W.WINDOW
    ensures var s := Run(k, START, steps);
            var p := s.sent[i];
            var r := Decrypted(k.aead, s.rx, p.data);
            && Unforged(k, s, p.data)
            && p.seqno in r.rx.seen && (r.status == Success || r.status == ParseError)
            && (Parse(p.payload).Some?
                ==> r.status == Success && r.inner == Some(Inner(Parse(p.payload).value, p.nextHeader)))
  {
    RunKeeps(k, START, steps);
    var s := Run(k, START, steps);
    var p := s.sent[i];
    assert SealedOk(k, p);
    PaddingFits(|p.payload|, k.aead.block, k.aead.ivLen);
    UnpadPlaintext(p.payload, k.aead.block, k.aead.ivLen, p.nextHeader);
  }
}
