/** The ESP context's sequence numbers: the circular anti-replay bitmap of esp_context.c and the set it stands for. */
module ReplayWindow {
  import opened Words

  const WINDOW: int := 128

  /** The plain rule of section 3.4.3 of RFC 4303: not seen before, and not too far behind the highest. */
  ghost predicate Acceptable(highest: U32, seen: set<U32>, seqno: U32) {
    seqno > 0 && seqno !in seen && (seqno > highest || highest - seqno < WINDOW)
  }

  function Max(a: U32, b: U32): U32 {
    if a > b then a else b
  }

  // ---- bits of the buffer ----

  /** 1 << k within a byte. */
  function Mask(k: nat): bv8
    requires k < 8
  {
    if k == 0 then 0x01 else if k == 1 then 0x02 else if k == 2 then 0x04 else if k == 3 then 0x08
    else if k == 4 then 0x10 else if k == 5 then 0x20 else if k == 6 then 0x40 else 0x80
  }

  predicate ByteBit(b: bv8, k: nat)
    requires k < 8
  {
    b & Mask(k) != 0
  }

  /** Bit i of the buffer, as get_window_bit reads it. */
  predicate Bit(window: seq<bv8>, i: nat)
    requires i / 8 < |window|
  {
    ByteBit(window[i / 8], i % 8)
  }

  /** What set_window_bit stores: |= (1 << k) or &= ~(1 << k). */
  function WithBit(b: bv8, k: nat, on: bool): bv8
    requires k < 8
  {
    if on then b | Mask(k) else b & !Mask(k)
  }

  lemma BitSet(b: bv8, k: nat, j: nat)
    requires k < 8 && j < 8
    ensures ByteBit(WithBit(b, k, true), j) <==> j == k || ByteBit(b, j)
  {
  }

  lemma BitCleared(b: bv8, k: nat, j: nat)
    requires k < 8 && j < 8
    ensures ByteBit(WithBit(b, k, false), j) <==> j != k && ByteBit(b, j)
  {
  }

  lemma ByteUpdated(b: bv8, k: nat, on: bool, j: nat)
    requires k < 8 && j < 8
    ensures ByteBit(WithBit(b, k, on), j) <==> if j == k then on else ByteBit(b, j)
  {
    if on { BitSet(b, k, j); } else { BitCleared(b, k, j); }
  }

  lemma SamePlace(i: nat, j: nat)
    ensures i == j <==> i / 8 == j / 8 && i % 8 == j % 8
  {
  }

  /** One bit of the buffer changes, the others stay. */
  lemma BitUpdated(w: seq<bv8>, index: nat, on: bool, j: nat)
    requires index / 8 < |w| && j / 8 < |w|
    ensures Bit(w[index / 8 := WithBit(w[index / 8], index % 8, on)], j) <==> if j == index then on else Bit(w, j)
  {
    SamePlace(index, j);
    ByteUpdated(w[index / 8], index % 8, on, j % 8);
  }

  /** How many places before `index` the place j lies on the ring. */
  function Behind(index: nat, j: nat): (d: nat)
    requires index < WINDOW && j < WINDOW
    ensures d < WINDOW
  {
    if index >= j then index - j else index - j + WINDOW
  }

  /** The n places up to the index have been cleared, the others are as before. */
  ghost predicate Passed(w0: seq<bv8>, w: seq<bv8>, index: nat, n: nat)
    requires |w0| == |w| == WINDOW / 8 + 1 && index < WINDOW
  {
    forall j | 0 <= j < WINDOW :: Bit(w, j) <==> Behind(index, j) >= n && Bit(w0, j)
  }

  lemma PassOne(w0: seq<bv8>, w: seq<bv8>, w1: seq<bv8>, index: nat, n: nat)
    requires |w0| == |w| == |w1| == WINDOW / 8 + 1 && index < WINDOW && n < WINDOW
    requires Passed(w0, w, if index == 0 then WINDOW - 1 else index - 1, n)
    requires forall j | 0 <= j < WINDOW :: Bit(w1, j) <==> j != index && Bit(w, j)
    ensures Passed(w0, w1, index, n + 1)
  {
  }

  /** 128 divides 2^32, so an index that underflows in 32-bit arithmetic still lands on the right place. */
  lemma UnderflowIsHarmless(index: nat, offset: nat)
    requires index < WINDOW && offset < WINDOW
    ensures var i := (index - offset) % TWO32 % WINDOW; 0 <= i < WINDOW && Behind(index, i) == offset
  {
    if index < offset {
      assert (index - offset) % TWO32 == index - offset + TWO32;
      assert index - offset + TWO32 == (index - offset + WINDOW) + WINDOW * (TWO32 / WINDOW - 1);
    } else {
      assert (index - offset) % TWO32 == index - offset;
    }
  }

  /** After a shift the places that were not passed keep their meaning, because index and number move together;
      when the shift is capped nothing is left of the old window. */
  lemma ShiftedPlace(index0: nat, index: nat, last0: U32, seqno: U32, shift: nat, seen: set<U32>, j: nat)
    requires index0 < WINDOW && j < WINDOW && last0 < seqno
    requires shift == if seqno - last0 < WINDOW then seqno - last0 else WINDOW
    requires index == (index0 + shift) % WINDOW
    requires forall s | s in seen :: 0 < s <= last0
    ensures seqno - Behind(index, j) in seen + {seqno}
            <==> j == index || (Behind(index, j) >= shift && last0 - Behind(index0, j) in seen)
  {
    if shift < WINDOW && Behind(index, j) >= shift {
      assert Behind(index, j) == Behind(index0, j) + shift;
    }
  }

  /** Marking a number inside the window touches its own place only. */
  lemma MarkedPlace(index: nat, place: nat, last: U32, seqno: U32, seen: set<U32>, j: nat)
    requires index < WINDOW && place < WINDOW && j < WINDOW && seqno <= last && Behind(index, place) == last - seqno
    ensures last - Behind(index, j) in seen + {seqno} <==> j == place || last - Behind(index, j) in seen
  {
  }

  /** The bitmap stands for the set: the place d behind the index tells whether last - d was seen. */
  ghost predicate Represents(w: seq<bv8>, index: nat, last: U32, seen: set<U32>)
    requires |w| == WINDOW / 8 + 1 && index < WINDOW
  {
    forall j | 0 <= j < WINDOW :: Bit(w, j) <==> last - Behind(index, j) in seen
  }

  lemma ShiftRepresents(w0: seq<bv8>, w1: seq<bv8>, w2: seq<bv8>, index0: nat, index: nat, last0: U32, seqno: U32,
                        shift: nat, seen: set<U32>)
    requires |w0| == |w1| == |w2| == WINDOW / 8 + 1 && index0 < WINDOW && last0 < seqno
    requires shift == if seqno - last0 < WINDOW then seqno - last0 else WINDOW
    requires index == (index0 + shift) % WINDOW
    requires forall s | s in seen :: 0 < s <= last0
    requires Represents(w0, index0, last0, seen)
    requires forall j | 0 <= j < WINDOW :: Bit(w1, j) <==> Behind(index, j) >= shift && Bit(w0, j)
    requires forall j | 0 <= j < WINDOW :: Bit(w2, j) <==> j == index || Bit(w1, j)
    ensures Represents(w2, index, seqno, seen + {seqno})
  {
    forall j | 0 <= j < WINDOW ensures Bit(w2, j) <==> seqno - Behind(index, j) in seen + {seqno} {
      ShiftedPlace(index0, index, last0, seqno, shift, seen, j);
    }
  }

  lemma MarkRepresents(w0: seq<bv8>, w1: seq<bv8>, index: nat, place: nat, last: U32, seqno: U32, seen: set<U32>)
    requires |w0| == |w1| == WINDOW / 8 + 1 && index < WINDOW && place < WINDOW
    requires seqno <= last && Behind(index, place) == last - seqno
    requires Represents(w0, index, last, seen)
    requires forall j | 0 <= j < WINDOW :: Bit(w1, j) <==> j == place || Bit(w0, j)
    ensures Represents(w1, index, last, seen + {seqno})
  {
    forall j | 0 <= j < WINDOW ensures Bit(w1, j) <==> last - Behind(index, j) in seen + {seqno} {
      MarkedPlace(index, place, last, seqno, seen, j);
    }
  }

  class EspContext {
    const inbound: bool
    var lastSeqno: U32
    var seqnoIndex: U32
    var window: array<bv8>
    // every sequence number that was authenticated
    ghost var seen: set<U32>

    ghost predicate Valid()
      reads this, window
    {
      && window.Length == WINDOW / 8 + 1
      && seqnoIndex < WINDOW
      && (inbound ==>
            && (forall s | s in seen :: 0 < s <= lastSeqno)
            && (lastSeqno > 0 ==> lastSeqno in seen)
            && Represents(window[..], seqnoIndex, lastSeqno, seen))
    }

    constructor (inbound: bool)
      ensures Valid() && this.inbound == inbound && lastSeqno == 0 && seen == {} && fresh(window)
    {
      this.inbound := inbound;
      lastSeqno, seqnoIndex, seen := 0, 0, {};
      window := new bv8[WINDOW / 8 + 1](_ => 0);
      new;
      assert forall j | 0 <= j < WINDOW :: !Bit(window[..], j);
    }

    method SetWindowBit(index: U32, set_: bool)
      requires window.Length == WINDOW / 8 + 1 && index < WINDOW
      modifies window
      ensures forall j | 0 <= j < WINDOW :: Bit(window[..], j) <==> if j == index then set_ else old(Bit(window[..], j))
    {
      var i := index / 8;
      ghost var w := window[..];
      window[i] := WithBit(window[i], index % 8, set_);
      assert window[..] == w[i := WithBit(w[i], index % 8, set_)];
      forall j | 0 <= j < WINDOW ensures Bit(window[..], j) <==> if j == index then set_ else Bit(w, j) {
        BitUpdated(w, index, set_, j);
      }
    }

    /** verify_seqno: the bitmap answers exactly as the set of authenticated numbers would. */
    method VerifySeqno(seqno: U32) returns (ok: bool)
      requires Valid()
      ensures ok <==> inbound && Acceptable(lastSeqno, seen, seqno)
    {
      if !inbound {
        return false;
      }
      if seqno > lastSeqno {
        ok := true;
      } else if seqno > 0 && WINDOW > (lastSeqno - seqno) % TWO32 {
        var offset := (lastSeqno - seqno) % TWO32;
        UnderflowIsHarmless(seqnoIndex, offset);
        offset := (seqnoIndex - offset) % TWO32 % WINDOW;
        ok := !Bit(window[..], offset);
      } else {
        ok := false;
      }
    }

    /** set_authenticated_seqno, which its users MUST precede by verify_seqno. */
    method SetAuthenticatedSeqno(seqno: U32)
      requires Valid() && (inbound ==> Acceptable(lastSeqno, seen, seqno))
      modifies this, window
      ensures Valid() && window == old(window)
      ensures inbound ==> seen == old(seen) + {seqno} && lastSeqno == Max(old(lastSeqno), seqno)
      ensures !inbound ==> seen == old(seen) && lastSeqno == old(lastSeqno)
    {
      if !inbound {
        return;
      }
      if seqno > lastSeqno {
        ShiftTo(seqno);
      } else {
        MarkInside(seqno);
      }
    }

    method ShiftTo(seqno: U32)
      requires Valid() && inbound && seqno > lastSeqno
      modifies this, window
      ensures Valid() && window == old(window) && seen == old(seen) + {seqno} && lastSeqno == seqno
    {
      var shift := (seqno - lastSeqno) % TWO32;
      shift := if shift < WINDOW then shift else WINDOW;
      ghost var w0, index0 := window[..], seqnoIndex;
      Advance(shift);
      ghost var w1 := window[..];
      SetWindowBit(seqnoIndex, true);
      ShiftRepresents(w0, w1, window[..], index0, seqnoIndex, lastSeqno, seqno, shift, seen);
      lastSeqno := seqno;
      seen := seen + {seqno};
    }

    method MarkInside(seqno: U32)
      requires Valid() && inbound && 0 < seqno <= lastSeqno && lastSeqno - seqno < WINDOW
      modifies this`seen, window
      ensures Valid() && seen == old(seen) + {seqno}
    {
      var i := (lastSeqno - seqno) % TWO32;
      UnderflowIsHarmless(seqnoIndex, i);
      var place := (seqnoIndex - i) % TWO32 % WINDOW;
      ghost var w0 := window[..];
      SetWindowBit(place, true);
      MarkRepresents(w0, window[..], seqnoIndex, place, lastSeqno, seqno, seen);
      seen := seen + {seqno};
    }

    /** The shift loop: moves the index forward and clears every place it passes. */
    method Advance(shift: nat)
      requires window.Length == WINDOW / 8 + 1 && seqnoIndex < WINDOW && shift <= WINDOW
      modifies this`seqnoIndex, window
      ensures seqnoIndex < WINDOW && seqnoIndex == (old(seqnoIndex) + shift) % WINDOW
      ensures Passed(old(window[..]), window[..], seqnoIndex, shift)
    {
      ghost var w0 := window[..];
      var i := 0;
      while i < shift
        invariant i <= shift && seqnoIndex < WINDOW && seqnoIndex == (old(seqnoIndex) + i) % WINDOW
        invariant Passed(w0, window[..], seqnoIndex, i)
      {
        ClearNext(w0, i);
        i := i + 1;
      }
    }

    /** One round of the shift loop. */
    method ClearNext(ghost w0: seq<bv8>, ghost n: nat)
      requires |w0| == window.Length == WINDOW / 8 + 1 && seqnoIndex < WINDOW && n < WINDOW
      requires Passed(w0, window[..], seqnoIndex, n)
      modifies this`seqnoIndex, window
      ensures seqnoIndex == (old(seqnoIndex) + 1) % WINDOW && Passed(w0, window[..], seqnoIndex, n + 1)
    {
      ghost var w := window[..];
      seqnoIndex := (seqnoIndex + 1) % WINDOW;
      SetWindowBit(seqnoIndex, false);
      PassOne(w0, w, window[..], seqnoIndex, n);
    }

    /** next_seqno: fresh numbers until they would cycle. */
    method NextSeqno() returns (ok: bool, seqno: U32)
      requires Valid()
      modifies this`lastSeqno
      ensures Valid() && ok == (!inbound && old(lastSeqno) < UINT32_MAX)
      ensures ok ==> seqno == lastSeqno == old(lastSeqno) + 1
      ensures !ok ==> lastSeqno == old(lastSeqno)
    {
      if inbound || lastSeqno == UINT32_MAX {
        return false, 0;
      }
      lastSeqno := lastSeqno + 1;
      return true, lastSeqno;
    }
  }
}
