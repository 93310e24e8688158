/** The TLS record layer of tls.c: reassembly of records from an incoming byte stream. */
module TlsRecords {
  import opened Bytes
  import opened Words

  const HEADER: nat := 5
  const TLS_1_2: U16 := 0x0303
  const TLS_1_3: U16 := 0x0304

  /** A record on the wire; the upper layer is handed type and data. */
  datatype Record = Record(kind: Byte, version: U16, data: seq<Byte>)

  datatype Status = NeedMore | Success | Failed | InvalidState | AlreadyDone

  /** type, version, length (16 bits of it), data */
  function Encode(r: Record): (b: seq<Byte>)
    ensures |b| == HEADER + |r.data|
  {
    [r.kind] + PutU16(r.version) + PutU16(|r.data| % 0x1_0000) + r.data
  }

  function EncodeAll(rs: seq<Record>): seq<Byte> {
    if rs == [] then [] else Encode(rs[0]) + EncodeAll(rs[1..])
  }

  function Length(b: seq<Byte>): U16
    requires |b| >= HEADER
  {
    GetU16(b, 3)
  }

  /** The record at the front of a byte string that holds all of it. */
  function Front(b: seq<Byte>): Record
    requires |b| >= HEADER && |b| >= HEADER + Length(b)
  {
    Record(b[0], GetU16(b, 1), b[HEADER..HEADER + Length(b)])
  }

  /** No whole record yet. */
  predicate Partial(b: seq<Byte>) {
    |b| < HEADER || |b| < HEADER + Length(b)
  }

  /** A whole record without data, of which only the header exists. */
  predicate EmptyRecord(b: seq<Byte>) {
    |b| == HEADER && Length(b) == 0
  }

  lemma {:induction false} EncodeAllAppend(a: seq<Record>, b: seq<Record>)
    ensures EncodeAll(a + b) == EncodeAll(a) + EncodeAll(b)
  {
    if a == [] {
      assert a + b == b;
    } else {
      EncodeAllAppend(a[1..], b);
      assert (a + b)[0] == a[0] && (a + b)[1..] == a[1..] + b;
      Assoc(Encode(a[0]), EncodeAll(a[1..]), EncodeAll(b));
    }
  }

  lemma EncodeAllSnoc(a: seq<Record>, r: Record)
    ensures EncodeAll(a + [r]) == EncodeAll(a) + Encode(r)
  {
    EncodeAllAppend(a, [r]);
    assert EncodeAll([r]) == Encode(r) + [];
  }

  lemma GetPut(b: seq<Byte>, at: nat)
    requires at + 2 <= |b|
    ensures PutU16(GetU16(b, at)) == b[at..at + 2]
  {
  }

  /** Reading a whole record off the front and writing it again gives the same bytes. */
  lemma FrontEncodes(b: seq<Byte>)
    requires !Partial(b)
    ensures Encode(Front(b)) == b[..HEADER + Length(b)] && |Front(b).data| < 0x1_0000
  {
    GetPut(b, 1);
    GetPut(b, 3);
    var r := Front(b);
    assert |r.data| % 0x1_0000 == Length(b);
    assert b[..HEADER + Length(b)] == [b[0]] + b[1..3] + b[3..5] + b[HEADER..HEADER + Length(b)];
  }

  /** An encoded record of less than 2^16 bytes is read back from the front of any stream. */
  lemma EncodeFronts(r: Record, rest: seq<Byte>)
    requires |r.data| < 0x1_0000
    ensures var b := Encode(r) + rest;
            !Partial(b) && Length(b) == |r.data| && Front(b) == r && b[HEADER + Length(b)..] == rest
  {
    var b := Encode(r) + rest;
    U16RoundTrip([r.kind], r.version, PutU16(|r.data|) + r.data + rest);
    U16RoundTrip([r.kind] + PutU16(r.version), |r.data|, r.data + rest);
    assert b == [r.kind] + PutU16(r.version) + (PutU16(|r.data|) + r.data + rest);
    assert b == ([r.kind] + PutU16(r.version)) + PutU16(|r.data|) + (r.data + rest);
  }

  // ---- the stream as a whole ----

  datatype Stream = Stream(records: seq<Record>, rest: seq<Byte>)

  /** The records a byte stream consists of, and the bytes of the last, unfinished one. */
  function Split(b: seq<Byte>): Stream
    decreases |b|
  {
    if Partial(b) then Stream([], b)
    else
      var s := Split(b[HEADER + Length(b)..]);
      Stream([Front(b)] + s.records, s.rest)
  }

  ghost predicate Small(rs: seq<Record>) {
    forall i | 0 <= i < |rs| :: |rs[i].data| < 0x1_0000
  }

  lemma SplitStep(r: Record, tail: seq<Byte>)
    requires |r.data| < 0x1_0000
    ensures Split(Encode(r) + tail) == Stream([r] + Split(tail).records, Split(tail).rest)
  {
    EncodeFronts(r, tail);
  }

  lemma ConsAppend(a: seq<Record>, b: seq<Record>)
    requires a != []
    ensures [a[0]] + (a[1..] + b) == a + b
  {
  }

  lemma {:induction false} SplitEncoded(rs: seq<Record>, b: seq<Byte>)
    requires Small(rs)
    ensures Split(EncodeAll(rs) + b) == Stream(rs + Split(b).records, Split(b).rest)
  {
    if rs == [] {
      assert EncodeAll(rs) + b == b;
    } else {
      Assoc(Encode(rs[0]), EncodeAll(rs[1..]), b);
      SplitStep(rs[0], EncodeAll(rs[1..]) + b);
      SplitEncoded(rs[1..], b);
      ConsAppend(rs, Split(b).records);
    }
  }

  /** What process leaves in its buffers between two calls. */
  predicate Resting(b: seq<Byte>) {
    Partial(b) || EmptyRecord(b)
  }

  /** Conservation fixes what was delivered: all records of the stream, except at most a last one without
      data whose header is still buffered. */
  lemma DeliveredFixed(fed: seq<Byte>, rs: seq<Record>, b: seq<Byte>)
    requires Small(rs) && Resting(b) && EncodeAll(rs) + b == fed
    ensures var s := Split(fed);
            if Partial(b) then rs == s.records && b == s.rest
            else s.records == rs + [Front(b)] && |Front(b).data| == 0 && s.rest == []
  {
    SplitEncoded(rs, b);
    if EmptyRecord(b) {
      assert b[HEADER..] == [];
      assert Split(b).records == [Front(b)];
    }
  }

  /** Two cuts of one stream deliver the same records, up to a last one without data that one of them still holds. */
  lemma CutsAgree(fed: seq<Byte>, rs1: seq<Record>, b1: seq<Byte>, rs2: seq<Record>, b2: seq<Byte>)
    requires Small(rs1) && Resting(b1) && EncodeAll(rs1) + b1 == fed
    requires Small(rs2) && Resting(b2) && EncodeAll(rs2) + b2 == fed
    ensures || (rs1 == rs2 && b1 == b2)
            || (EmptyRecord(b1) && rs2 == rs1 + [Front(b1)] && b2 == [])
            || (EmptyRecord(b2) && rs1 == rs2 + [Front(b2)] && b1 == [])
  {
    DeliveredFixed(fed, rs1, b1);
    DeliveredFixed(fed, rs2, b2);
    if EmptyRecord(b1) && EmptyRecord(b2) {
      assert rs1 == (rs1 + [Front(b1)])[..|rs1|] && rs2 == (rs2 + [Front(b2)])[..|rs2|];
      assert (rs1 + [Front(b1)])[|rs1|] == (rs2 + [Front(b2)])[|rs2|];
      FrontEncodes(b1);
      FrontEncodes(b2);
    }
  }

  // ---- process ----

  /** The upper layer's answers to what was delivered after d0: all but the last were NEED_MORE, and the
      last one is the status, or there was none and the status is NEED_MORE. */
  ghost predicate AnswersOk(answer: seq<Record> -> Status, d0: seq<Record>, d: seq<Record>, status: Status) {
    && d0 <= d
    && (forall k | |d0| < k < |d| :: answer(d[..k]) == NeedMore)
    && (|d0| < |d| ==> status == answer(d))
    && (|d0| == |d| ==> status == NeedMore)
  }

  lemma AnswerNext(answer: seq<Record> -> Status, d0: seq<Record>, d: seq<Record>, r: Record)
    requires AnswersOk(answer, d0, d, NeedMore)
    ensures AnswersOk(answer, d0, d + [r], answer(d + [r]))
  {
    forall k | |d0| < k < |d + [r]| ensures answer((d + [r])[..k]) == NeedMore {
      assert (d + [r])[..k] == d[..k];
      assert d[..|d|] == d;
    }
  }

  lemma AnswersTrans(answer: seq<Record> -> Status, d0: seq<Record>, d1: seq<Record>, d2: seq<Record>, status: Status)
    requires AnswersOk(answer, d0, d1, NeedMore) && AnswersOk(answer, d1, d2, status)
    ensures AnswersOk(answer, d0, d2, status)
  {
    forall k | |d0| < k < |d2| ensures answer(d2[..k]) == NeedMore {
      if k < |d1| { assert d2[..k] == d1[..k]; }
      if k == |d1| { assert d2[..k] == d1; }
    }
    if |d1| == |d2| { assert d1 == d2; }
  }

  class TlsInput {
    // the answer of the protection layer to the last of the records it has been given
    const answer: seq<Record> -> Status
    var input: array<Byte>
    var inpos: nat
    var head: array<Byte>
    var headpos: nat
    var delivered: seq<Record>

    ghost predicate Frame()
      reads this
    {
      head.Length == HEADER && input != head && inpos <= input.Length && headpos < HEADER
    }

    /** The bytes kept for later. */
    function Buffered(): seq<Byte>
      requires inpos <= input.Length && headpos <= head.Length
      reads this, input, head
    {
      if headpos > 0 then head[..headpos] else input[..inpos]
    }

    ghost predicate InputOk()
      requires Frame()
      reads this, input
    {
      input.Length > 0 ==>
        HEADER <= inpos <= input.Length && input.Length == HEADER + Length(input[..inpos])
        && (inpos < input.Length || inpos == HEADER)
    }

    ghost predicate Valid()
      reads this, input, head
    {
      Frame() && InputOk() && (headpos > 0 ==> input.Length == 0) && Small(delivered)
    }

    ghost predicate Answered(d0: seq<Record>, status: Status)
      reads this
    {
      AnswersOk(answer, d0, delivered, status)
    }

    constructor (answer: seq<Record> -> Status)
      ensures Valid() && fresh(input) && fresh(head) && Buffered() == [] && delivered == [] && this.answer == answer
    {
      this.answer := answer;
      input := new Byte[0];
      head := new Byte[HEADER];
      inpos, headpos, delivered := 0, 0, [];
    }

    /** Whatever is buffered between calls is no whole record, or a record without data. */
    lemma RestingBuffer()
      requires Valid()
      ensures Resting(Buffered())
    {
    }

    /** Gives a record to the protection layer. */
    method Deliver(r: Record) returns (status: Status)
      modifies this`delivered
      ensures delivered == old(delivered) + [r] && status == answer(delivered)
    {
      delivered := delivered + [r];
      status := answer(delivered);
    }

    /** Completes a partial header from the front of buf, and allocates the record if it is whole. */
    method CompleteHeader(buf: seq<Byte>) returns (pos: nat)
      requires Valid() && headpos > 0
      modifies this`headpos, this`input, this`inpos, head
      ensures Valid() && head == old(head) && (input == old(input) || fresh(input))
      ensures pos <= |buf| && old(Buffered()) + buf[..pos] == Buffered()
      ensures pos < |buf| ==> headpos == 0
    {
      var len := Min(|buf|, HEADER - headpos);
      Put(head, headpos, buf[..len]);
      headpos := headpos + len;
      assert head[..headpos] == old(head[..headpos]) + buf[..len];
      if headpos == HEADER {
        var n: nat := GetU16(head[..], 3);
        input := new Byte[n + HEADER];
        Put(input, 0, head[..]);
        inpos := HEADER;
        headpos := 0;
        assert input[..inpos] == head[..];
      }
      pos := len;
    }

    /** Processes whole records straight from buf; stops at a status other than NEED_MORE, or where no whole record is
        left. */
    method InlineRecords(buf: seq<Byte>, start: nat) returns (status: Status, pos: nat)
      requires Valid() && input.Length == 0 && headpos == 0 && start <= |buf|
      modifies this`delivered
      ensures Valid() && start <= pos <= |buf| && Answered(old(delivered), status)
      ensures EncodeAll(delivered) + buf[pos..] == EncodeAll(old(delivered)) + buf[start..]
      ensures status == NeedMore ==> Partial(buf[pos..])
    {
      pos := start;
      status := NeedMore;
      while |buf| - pos >= HEADER
        invariant start <= pos <= |buf| && Valid() && status == NeedMore && Answered(old(delivered), status)
        invariant EncodeAll(delivered) + buf[pos..] == EncodeAll(old(delivered)) + buf[start..]
      {
        var len: nat := GetU16(buf, pos + 3);
        if len + HEADER > |buf| - pos {
          return;
        }
        var r := Record(buf[pos], GetU16(buf, pos + 1), buf[pos + HEADER..pos + HEADER + len]);
        ghost var d := delivered;
        status := Deliver(r);
        Consumed(d, r, buf, pos);
        AnswerNext(answer, old(delivered), d, r);
        pos := pos + len + HEADER;
        if status != NeedMore {
          return;
        }
      }
    }

    /** Moves bytes into the allocated record and processes it once it is whole. */
    method FillInput(buf: seq<Byte>, start: nat) returns (status: Status, pos: nat)
      requires Frame() && Small(delivered) && headpos == 0 && start < |buf|
      requires input.Length >= HEADER
               && (InputOk() || (inpos == 0 && |buf| - start >= HEADER
                                 && input.Length == HEADER + Length(buf[start..])))
      modifies this`inpos, this`input, this`delivered, input
      ensures Valid() && headpos == 0 && (input == old(input) || fresh(input))
      ensures start <= pos <= |buf| && Answered(old(delivered), status)
      ensures EncodeAll(delivered) + Buffered() + buf[pos..]
              == EncodeAll(old(delivered)) + old(input[..inpos]) + buf[start..]
      ensures status != NeedMore ==> Buffered() == []
      ensures input.Length > 0 ==> pos == |buf|
      ensures pos == start ==> input.Length == 0 && old(inpos) == old(input.Length)
    {
      var len := Min(|buf| - start, input.Length - inpos);
      ghost var before := input[..inpos];
      Put(input, inpos, buf[start..start + len]);
      pos := start + len;
      inpos := inpos + len;
      assert input[..inpos] == before + buf[start..pos];
      assert buf[start..] == buf[start..pos] + buf[pos..];
      FourParts(EncodeAll(delivered), before, buf[start..pos], buf[pos..]);
      assert Length(input[..inpos]) == input.Length - HEADER;
      status := NeedMore;
      if input.Length == inpos {
        assert input[..] == input[..inpos];
        status := DeliverInput();
      }
    }

    /** Processes the buffered record and frees the buffer. */
    method DeliverInput() returns (status: Status)
      requires Frame() && Small(delivered) && headpos == 0
      requires input.Length == inpos >= HEADER && Length(input[..]) == input.Length - HEADER
      modifies this`inpos, this`input, this`delivered
      ensures Valid() && fresh(input) && input.Length == 0 && Buffered() == []
      ensures Answered(old(delivered), status)
      ensures EncodeAll(delivered) == EncodeAll(old(delivered)) + old(input[..])
    {
      var n: nat := GetU16(input[..], 3);
      var r := Record(input[0], GetU16(input[..], 1), input[HEADER..HEADER + n]);
      ghost var d, b := delivered, input[..];
      assert b[0..] == b && r == Front(b);
      Consumed(d, r, b, 0);
      status := Deliver(r);
      AnswerNext(answer, d, d, r);
      input := new Byte[0];
      inpos := 0;
      assert b[HEADER + n..] == [];
    }

    /** tls_t.process: conservation of bytes. What has been delivered, what is kept and, after an answer other than
        NEED_MORE, what is thrown away, together are exactly what was there before and what was fed. */
    method Process(buf: seq<Byte>) returns (status: Status, ghost dropped: seq<Byte>)
      requires Valid()
      modifies this`inpos, this`input, this`headpos, this`delivered, input, head
      ensures Valid() && head == old(head) && (input == old(input) || fresh(input))
      ensures Answered(old(delivered), status) && (status == NeedMore ==> dropped == [])
      ensures EncodeAll(delivered) + Buffered() + dropped == EncodeAll(old(delivered)) + old(Buffered()) + buf
    {
      ghost var d0, total := delivered, EncodeAll(delivered) + Buffered() + buf;
      var pos := 0;
      status, dropped := NeedMore, [];
      if headpos > 0 {
        ghost var kept := Buffered();
        pos := CompleteHeader(buf);
        FourParts(EncodeAll(delivered), kept, buf[..pos], buf[pos..]);
        assert buf == buf[..pos] + buf[pos..];
      } else {
        assert buf[0..] == buf;
      }
      while pos < |buf|
        invariant Valid() && head == old(head) && (input == old(input) || fresh(input))
        invariant pos <= |buf| && (pos < |buf| ==> headpos == 0)
        invariant status == NeedMore && dropped == [] && Answered(d0, NeedMore)
        invariant EncodeAll(delivered) + Buffered() + buf[pos..] == total
        decreases |buf| - pos, input.Length
      {
        ghost var d := delivered;
        status, pos := Round(buf, pos);
        AnswersTrans(answer, d0, d, delivered, status);
        if status != NeedMore {
          dropped := buf[pos..];
          return;
        }
      }
    }

    /** One pass of process's outer loop. */
    method Round(buf: seq<Byte>, start: nat) returns (status: Status, pos: nat)
      requires Valid() && headpos == 0 && start < |buf|
      modifies this`inpos, this`input, this`headpos, this`delivered, input, head
      ensures Valid() && head == old(head) && (input == old(input) || fresh(input))
      ensures start <= pos <= |buf| && (pos < |buf| ==> headpos == 0) && Answered(old(delivered), status)
      ensures EncodeAll(delivered) + Buffered() + buf[pos..]
              == EncodeAll(old(delivered)) + old(Buffered()) + buf[start..]
      ensures status == NeedMore && pos == start ==> input.Length < old(input.Length)
    {
      pos := start;
      ghost var d := delivered;
      if input.Length == 0 {
        status, pos := InlineRecords(buf, pos);
        assert Buffered() == [] == old(Buffered());
        NoneBetween(EncodeAll(delivered), buf[pos..]);
        NoneBetween(EncodeAll(d), buf[start..]);
        if status != NeedMore {
          return;
        }
        if |buf| - pos < HEADER {
          KeepHead(buf[pos..]);
          Assoc(EncodeAll(delivered), buf[pos..], []);
          pos := |buf|;
          return;
        }
        var len: nat := GetU16(buf, pos + 3);
        assert Length(buf[pos..]) == len;
        input := new Byte[len + HEADER];
        inpos := 0;
        d := delivered;
      }
      status, pos := FillInput(buf, pos);
      AnswersTrans(answer, old(delivered), d, delivered, status);
    }

    /** Less than a header is left: it goes into the header buffer. */
    method KeepHead(b: seq<Byte>)
      requires Valid() && headpos == 0 && input.Length == 0 && |b| < HEADER
      modifies this`headpos, head
      ensures Valid() && Buffered() == b
    {
      Put(head, 0, b);
      headpos := |b|;
      assert head[..headpos] == b;
    }
  }

  lemma NoneBetween(a: seq<Byte>, c: seq<Byte>)
    ensures a + [] + c == a + c
  {
  }

  /** The bytes of a record move from the stream to the delivered side. */
  lemma Consumed(d: seq<Record>, r: Record, buf: seq<Byte>, pos: nat)
    requires pos <= |buf| && !Partial(buf[pos..]) && r == Front(buf[pos..])
    ensures EncodeAll(d + [r]) + buf[pos + HEADER + Length(buf[pos..])..] == EncodeAll(d) + buf[pos..]
    ensures Small(d) ==> Small(d + [r])
  {
    var b := buf[pos..];
    FrontEncodes(b);
    EncodeAllSnoc(d, r);
    Assoc(EncodeAll(d), Encode(r), b[HEADER + Length(b)..]);
    assert b == b[..HEADER + Length(b)] + b[HEADER + Length(b)..];
    assert buf[pos + HEADER + Length(b)..] == b[HEADER + Length(b)..];
  }

  function Concat(chunks: seq<seq<Byte>>): seq<Byte> {
    if chunks == [] then [] else chunks[0] + Concat(chunks[1..])
  }

  lemma {:induction false} ConcatSnoc(chunks: seq<seq<Byte>>, k: nat)
    requires k < |chunks|
    ensures Concat(chunks[..k + 1]) == Concat(chunks[..k]) + chunks[k]
  {
    if k == 0 {
      assert chunks[..1][1..] == [];
      assert Concat(chunks[..1]) == chunks[0] + [];
      assert chunks[..0] == [];
    } else {
      var c := chunks[1..];
      ConcatSnoc(c, k - 1);
      assert chunks[..k + 1][1..] == c[..k] && chunks[..k][1..] == c[..k - 1];
      Assoc(chunks[0], Concat(c[..k - 1]), c[k - 1]);
    }
  }

  ghost predicate AlwaysNeedsMore(answer: seq<Record> -> Status) {
    forall rs: seq<Record> :: answer(rs) == NeedMore
  }

  /** However a byte stream is cut into calls of process, while the upper layer answers NEED_MORE: the encodings of the
      delivered records followed by the buffered bytes are exactly the bytes fed, and the records are those of the
      stream, except at most a last one without data whose header is still buffered. */
  method Reassemble(answer: seq<Record> -> Status, chunks: seq<seq<Byte>>)
    returns (delivered: seq<Record>, kept: seq<Byte>)
    requires AlwaysNeedsMore(answer)
    ensures Small(delivered) && Resting(kept) && EncodeAll(delivered) + kept == Concat(chunks)
    ensures var s := Split(Concat(chunks));
            if Partial(kept) then delivered == s.records && kept == s.rest
            else s.records == delivered + [Front(kept)] && |Front(kept).data| == 0 && s.rest == []
  {
    var t := new TlsInput(answer);
    var i := 0;
    assert chunks[..0] == [];
    while i < |chunks|
      invariant i <= |chunks| && t.Valid() && fresh(t) && fresh(t.input) && fresh(t.head) && t.answer == answer
      invariant EncodeAll(t.delivered) + t.Buffered() == Concat(chunks[..i])
    {
      ghost var before := t.Buffered();
      ghost var d := t.delivered;
      var status, dropped := t.Process(chunks[i]);
      assert status == NeedMore && dropped == [];
      assert EncodeAll(t.delivered) + t.Buffered() + [] == EncodeAll(t.delivered) + t.Buffered();
      ConcatSnoc(chunks, i);
      i := i + 1;
    }
    assert chunks[..i] == chunks;
    t.RestingBuffer();
    delivered, kept := t.delivered, t.Buffered();
    DeliveredFixed(Concat(chunks), delivered, kept);
  }
}
