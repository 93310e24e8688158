/** The outgoing half of tls.c: records are concatenated and handed out in pieces of the caller's choosing. */
module TlsBuild {
  import opened Bytes
  import opened Words
  import opened TlsRecords

  /** What the protection layer answers when it is asked for the next record: one, INVALID_STATE, or another status. */
  datatype Response = Give(kind: Byte, data: seq<Byte>) | Nothing | Stop(status: Status)

  /** The records among the answers, in order. */
  function Given(asked: seq<Response>, version: U16): seq<Record> {
    if asked == [] then []
    else
      var last := asked[|asked| - 1];
      Given(asked[..|asked| - 1], version) + (if last.Give? then [Record(last.kind, version, last.data)] else [])
  }

  /** The version in a record's header: that of TLS 1.2 from TLS 1.3 on. */
  function OnTheWire(versionMax: U16): (r: U16)
    ensures r == Min(versionMax, 0x0303)
  {
    if versionMax < TLS_1_3 then versionMax else TLS_1_2
  }

  predicate OnlyRecords(upper: seq<Response>) {
    forall r <- upper :: r.Give?
  }

  datatype Collected = Ready | Empty | Stopped(status: Status)

  class TlsOutput {
    const versionMax: U16
    var output: seq<Byte>
    var outpos: nat
    // the answers of the protection layer still to come; Nothing once they are used up
    var upper: seq<Response>
    // the answers so far, and every byte handed out
    ghost var asked: seq<Response>
    ghost var emitted: seq<Byte>

    function WireVersion(): U16 {
      OnTheWire(versionMax)
    }

    ghost function Taken(): seq<Record>
      reads this
    {
      Given(asked, WireVersion())
    }

    /** Conservation: what was handed out and what is still to be handed out encode the records taken. */
    ghost predicate Valid()
      reads this
    {
      && outpos <= |output| && (output != [] ==> outpos < |output|)
      && emitted + output[outpos..] == EncodeAll(Taken())
    }

    constructor (versionMax: U16, upper: seq<Response>)
      ensures Valid() && output == [] && asked == [] && emitted == [] && this.upper == upper
              && this.versionMax == versionMax
    {
      this.versionMax := versionMax;
      this.upper := upper;
      output, outpos, asked, emitted := [], 0, [], [];
    }

    /** protection->build. */
    method Ask() returns (r: Response)
      modifies this`upper, this`asked
      ensures OnlyRecords(old(upper)) ==> OnlyRecords(upper) && (r == Nothing <==> old(upper) == []) && !r.Stop?
      ensures asked + upper == old(asked + upper) && |upper| == (if old(upper) == [] then 0 else |old(upper)| - 1)
      ensures if old(upper) == [] then r == Nothing && asked == old(asked) else asked == old(asked) + [r]
    {
      if upper == [] {
        return Nothing;
      }
      r := upper[0];
      assert r in upper;
      asked := asked + [r];
      upper := upper[1..];
    }

    /** Appends a record to the output. */
    method Append(kind: Byte, data: seq<Byte>, ghost before: seq<Response>)
      requires outpos == 0 && emitted + output == EncodeAll(Given(before, WireVersion()))
               && asked == before + [Give(kind, data)]
      modifies this`output
      ensures emitted + output == EncodeAll(Taken()) && output != []
    {
      var record := Record(kind, WireVersion(), data);
      EncodeAllSnoc(Given(before, WireVersion()), record);
      Assoc(emitted, output, Encode(record));
      assert asked[..|asked| - 1] == before;
      output := output + Encode(record);
    }

    /** Queries the upper layers for new records, as many as there are. */
    method Collect() returns (c: Collected)
      requires Valid() && output == []
      modifies this`output, this`asked, this`upper
      ensures Valid() && emitted == old(emitted) && asked + upper == old(asked + upper)
      ensures c.Ready? ==> output != [] && outpos == 0
      ensures c.Stopped? ==> asked != [] && asked[|asked| - 1] == Stop(c.status)
      ensures c.Empty? ==> output == [] && Taken() == old(Taken())
      ensures OnlyRecords(old(upper)) ==> upper == [] && c == if old(upper) == [] then Empty else Ready
    {
      assert output[outpos..] == output;
      while true
        invariant outpos == 0 && emitted == old(emitted) && emitted + output == EncodeAll(Taken())
        invariant asked + upper == old(asked + upper) && (output == [] ==> Taken() == old(Taken()))
        invariant OnlyRecords(old(upper)) ==> OnlyRecords(upper) && (output == [] <==> upper == old(upper))
        decreases |upper|
      {
        ghost var before := asked;
        var last := upper == [];
        var r := Ask();
        assert !last ==> asked[..|asked| - 1] == before;
        if r.Give? {
          Append(r.kind, r.data, before);
        } else {
          assert Taken() == Given(before, WireVersion());
          assert output[outpos..] == output;
          if r.Nothing? {
            return if output == [] then Empty else Ready;
          }
          return Stopped(r.status);
        }
      }
    }

    /** tls_t.build with room for buflen bytes: what is written, and how long a new message is (0 while one goes on).
        `ready` tells that there was something to hand out: then the next bytes of the encoded records are written, as
        many as fit, and the status tells whether any are left. Otherwise nothing is written, and either the upper layer
        had no record or it answered with the status returned. */
    method Build(buflen: nat) returns (status: Status, out: seq<Byte>, msglen: nat, ghost ready: bool)
      requires Valid()
      modifies this
      ensures Valid() && asked + upper == old(asked + upper) && emitted == old(emitted) + out
      ensures ready ==> |out| == Min(buflen, |EncodeAll(Taken())| - |old(emitted)|)
      ensures ready ==> status == if emitted == EncodeAll(Taken()) then AlreadyDone else NeedMore
      ensures ready ==> msglen == if old(output) == [] then |EncodeAll(Taken())| - |old(emitted)| else 0
      ensures old(output) != [] ==> ready && asked == old(asked)
      ensures old(output) == [] && OnlyRecords(old(upper)) ==> upper == [] && (ready <==> old(upper) != [])
      ensures !ready ==> out == [] && msglen == 0
      ensures !ready ==> || (status == InvalidState && Taken() == old(Taken()))
                         || (asked != [] && asked[|asked| - 1] == Stop(status))
    {
      out, msglen, ready := [], 0, true;
      assert emitted + [] == emitted;
      assert output == [] ==> output[outpos..] == [];
      if output == [] {
        var c := Collect();
        if c.Empty? {
          return InvalidState, [], 0, false;
        }
        if c.Stopped? {
          return c.status, [], 0, false;
        }
        msglen := |output|;
      }
      status, out := HandOut(buflen);
    }

    /** The part of build that writes as much as fits. */
    method HandOut(buflen: nat) returns (status: Status, out: seq<Byte>)
      requires Valid() && output != []
      modifies this`output, this`outpos, this`emitted
      ensures Valid() && emitted == old(emitted) + out
      ensures |out| == Min(buflen, |EncodeAll(Taken())| - |old(emitted)|)
      ensures status == if emitted == EncodeAll(Taken()) then AlreadyDone else NeedMore
    {
      var len := Min(buflen, |output| - outpos);
      out := output[outpos..outpos + len];
      assert output[outpos..] == out + output[outpos + len..];
      Assoc(emitted, out, output[outpos + len..]);
      emitted := emitted + out;
      outpos := outpos + len;
      if outpos == |output| {
        assert output[outpos..] == [];
        output, outpos := [], 0;
        return AlreadyDone, out;
      }
      return NeedMore, out;
    }
  }

  // ---- both ends ----

  /** Records that arrive complete from the front part of a stream are the first ones sent. */
  lemma {:induction false} PrefixArrives(ds: seq<Record>, tail: seq<Byte>, rs: seq<Record>)
    requires Small(ds) && Small(rs) && EncodeAll(ds) + tail == EncodeAll(rs)
    ensures ds <= rs && tail == EncodeAll(rs[|ds|..])
  {
    if ds == [] {
      assert EncodeAll(ds) + tail == tail;
      assert rs[0..] == rs;
    } else {
      Assoc(Encode(ds[0]), EncodeAll(ds[1..]), tail);
      EncodeFronts(ds[0], EncodeAll(ds[1..]) + tail);
      EncodeFronts(rs[0], EncodeAll(rs[1..]));
      PrefixArrives(ds[1..], tail, rs[1..]);
      assert rs[1..][|ds| - 1..] == rs[|ds|..];
      Extend(ds, rs);
    }
  }

  lemma Extend(ds: seq<Record>, rs: seq<Record>)
    requires ds != [] && rs != [] && ds[0] == rs[0] && ds[1..] <= rs[1..]
    ensures ds <= rs
  {
    assert ds == [ds[0]] + ds[1..] && rs == [rs[0]] + rs[1..];
  }

  /** Whatever part of its output a sender has handed out, cut into whatever pieces: the receiver has exactly the first
      of the records the sender took, as (type, version, data), and it is missing only what has not been handed out
      whole; when everything has been, it has them all, up to a last one without data that is still buffered. */
  lemma ArrivesAsSent(rs: seq<Record>, emitted: seq<Byte>, unsent: seq<Byte>, ds: seq<Record>, kept: seq<Byte>)
    requires Small(rs) && emitted + unsent == EncodeAll(rs)
    requires Small(ds) && Resting(kept) && EncodeAll(ds) + kept == emitted
    ensures ds <= rs
    ensures unsent == [] ==> ds == rs || (EmptyRecord(kept) && rs == ds + [Front(kept)])
  {
    Assoc(EncodeAll(ds), kept, unsent);
    PrefixArrives(ds, kept + unsent, rs);
    if unsent == [] {
      assert emitted + [] == emitted;
      assert EncodeAll(rs) + [] == EncodeAll(rs);
      CutsAgree(emitted, ds, kept, rs, []);
    }
  }

  /** On the wire stand the type, the version, the length and the data; a record is read off the front of a stream as
      itself if and only if its data is shorter than 65536 bytes: the length field of a longer one is cut to 16 bits. */
  lemma ReadBackIfShort(r: Record, rest: seq<Byte>)
    ensures !Partial(Encode(r) + rest)
    ensures Front(Encode(r) + rest) == r <==> |r.data| < 0x1_0000
    ensures var b := Encode(r);
            && |b| == 5 + |r.data| && b[0] == r.kind && b[1] == r.version / 256 && b[2] == r.version % 256
            && b[3] == |r.data| / 256 % 256 && b[4] == |r.data| % 256 && b[5..] == r.data
  {
    var b := Encode(r) + rest;
    if |r.data| < 0x1_0000 {
      EncodeFronts(r, rest);
    } else {
      assert b[3] == PutU16(|r.data| % 0x1_0000)[0] && b[4] == PutU16(|r.data| % 0x1_0000)[1];
      assert |Front(b).data| < 0x1_0000;
    }
  }

  function Total(sizes: seq<nat>): nat {
    if sizes == [] then 0 else Total(sizes[..|sizes| - 1]) + sizes[|sizes| - 1]
  }

  /** build called with buffers of these sizes: the records taken, what was written and what is still to be. */
  method Emit(versionMax: U16, upper: seq<Response>, sizes: seq<nat>)
    returns (n: nat, sent: seq<Byte>, unsent: seq<Byte>)
    ensures n <= |upper| && sent + unsent == EncodeAll(Given(upper[..n], OnTheWire(versionMax)))
    ensures OnlyRecords(upper) && sizes != [] ==> n == |upper| && |sent| == Min(Total(sizes), |sent + unsent|)
  {
    var o := new TlsOutput(versionMax, upper);
    sent := [];
    ghost var all := |EncodeAll(Given(upper, OnTheWire(versionMax)))|;
    var i := 0;
    while i < |sizes|
      invariant i <= |sizes| && fresh(o) && o.Valid() && o.emitted == sent && o.asked + o.upper == upper
      invariant i == 0 ==> o.output == [] && o.upper == upper && sent == []
      invariant OnlyRecords(upper) && i > 0 ==> o.upper == [] && |sent| == Min(Total(sizes[..i]), all)
    {
      var _, out, _, _ := o.Build(sizes[i]);
      sent := sent + out;
      i := i + 1;
      assert sizes[..i][..i - 1] == sizes[..i - 1];
      assert o.upper == [] ==> o.asked == upper;
    }
    n, unsent := |upper| - |o.upper|, o.output[o.outpos..];
    assert upper[..n] == o.asked && sizes[..i] == sizes;
    assert o.upper == [] ==> o.asked == upper;
  }

  /** Both ends together: build is called with buffers of any sizes, what it wrote is divided into pieces in any way,
      and the pieces are given to process. The receiver has the first of the records the sender took from its upper
      layer, and all of them once everything has been handed out, up to a last one without data whose header it still
      holds. An upper layer that has nothing but records is emptied, and everything has been handed out if and only if
      the buffers have room for it. */
  method Transmit(versionMax: U16, upper: seq<Response>, sizes: seq<nat>, cut: seq<Byte> -> seq<seq<Byte>>,
                  answer: seq<Record> -> Status)
    returns (taken: seq<Record>, received: seq<Record>, kept: seq<Byte>, done: bool)
    requires AlwaysNeedsMore(answer) && forall b: seq<Byte> :: Concat(cut(b)) == b
    ensures exists n | 0 <= n <= |upper| :: taken == Given(upper[..n], OnTheWire(versionMax))
    ensures Small(taken) ==> received <= taken
    ensures Small(taken) && done ==> received == taken || (EmptyRecord(kept) && taken == received + [Front(kept)])
    ensures OnlyRecords(upper) && sizes != [] ==> taken == Given(upper, OnTheWire(versionMax))
    ensures OnlyRecords(upper) && sizes != [] ==> (done <==> |EncodeAll(taken)| <= Total(sizes))
  {
    var n, sent, unsent := Emit(versionMax, upper, sizes);
    done := unsent == [];
    received, kept := Reassemble(answer, cut(sent));
    taken := Given(upper[..n], OnTheWire(versionMax));
    assert upper[..|upper|] == upper;
    if Small(taken) {
      ArrivesAsSent(taken, sent, unsent, received, kept);
    }
  }
}
