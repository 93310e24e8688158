/** SPI allocation: get_spi, allocate_spi and what add_sa and del_sa give back. */
module SpiAllocation {
  import opened SaManager
  import opened Words

  const SPI_FLOOR: int := 0x100

  /** htonl and ntohl on a little-endian machine: the four bytes in reverse order. */
  function SwapBytes(x: U32): (r: U32) {
    var b0, x1 := x % 256, x / 256;
    var b1, x2 := x1 % 256, x1 / 256;
    var b2, b3 := x2 % 256, x2 / 256;
    Join(b3, b2, b1, b0)
  }

  function Join(b0: int, b1: int, b2: int, b3: int): (r: U32)
    requires 0 <= b0 < 256 && 0 <= b1 < 256 && 0 <= b2 < 256 && 0 <= b3 < 256
  {
    b0 + 256 * (b1 + 256 * (b2 + 256 * b3))
  }

  lemma SwapJoined(b0: int, b1: int, b2: int, b3: int)
    requires 0 <= b0 < 256 && 0 <= b1 < 256 && 0 <= b2 < 256 && 0 <= b3 < 256
    ensures SwapBytes(Join(b0, b1, b2, b3)) == Join(b3, b2, b1, b0)
  {
    var x2 := b2 + 256 * b3;
    var x1 := b1 + 256 * x2;
    assert (b0 + 256 * x1) % 256 == b0 && (b0 + 256 * x1) / 256 == x1;
    assert x1 % 256 == b1 && x1 / 256 == x2;
    assert x2 % 256 == b2 && x2 / 256 == b3;
  }

  lemma SwapBytesUndoes(x: U32)
    ensures SwapBytes(SwapBytes(x)) == x
  {
    var b0, x1 := x % 256, x / 256;
    var b1, x2 := x1 % 256, x1 / 256;
    SwapJoined(x2 / 256, x2 % 256, b1, b0);
  }

  /** The configured bounds, swapped if they are the wrong way round and lifted out of 0..255. */
  function Low(spiMin: U32, spiMax: U32): U32 {
    var lo := if spiMin > spiMax then spiMax else spiMin;
    if lo > SPI_FLOOR then lo else SPI_FLOOR
  }

  function High(spiMin: U32, spiMax: U32): U32 {
    var hi := if spiMin > spiMax then spiMin else spiMax;
    if hi > SPI_FLOOR then hi else SPI_FLOOR
  }

  /** spi_max - spi_min + 1 in 32-bit arithmetic. */
  function Modulus(spiMin: U32, spiMax: U32): (m: U32)
    ensures m == High(spiMin, spiMax) - Low(spiMin, spiMax) + 1 > 0
  {
    (High(spiMin, spiMax) - Low(spiMin, spiMax) + 1) % TWO32
  }

  /** The number made of one draw. */
  function Drawn(spiMin: U32, spiMax: U32, draw: U32): (n: U32)
    ensures Low(spiMin, spiMax) <= n <= High(spiMin, spiMax)
  {
    (Low(spiMin, spiMax) + draw % Modulus(spiMin, spiMax)) % TWO32
  }

  /** The SPI made of it, in network byte order. */
  function Candidate(spiMin: U32, spiMax: U32, draw: U32): U32 {
    SwapBytes(Drawn(spiMin, spiMax, draw))
  }

  lemma CandidateInRange(spiMin: U32, spiMax: U32, draw: U32)
    ensures var spi := SwapBytes(Candidate(spiMin, spiMax, draw));
            && Low(spiMin, spiMax) <= spi <= High(spiMin, spiMax) && SPI_FLOOR <= spi
            // whatever both bounds lie above 255, the range is the configured one
            && (SPI_FLOOR <= spiMin <= spiMax ==> spiMin <= spi <= spiMax)
  {
    SwapBytesUndoes(Drawn(spiMin, spiMax, draw));
  }

  /** allocate_spi would refuse it. */
  ghost predicate Taken(s: State, spi: nat) {
    spi in s.reserved || InboundSpiInUse(s, spi)
  }

  /** Does some entry of the list use the SPI for an inbound SA? */
  method FindInbound(s: State, spi: nat) returns (used: bool)
    ensures used == InboundSpiInUse(s, spi)
  {
    used := false;
    var i := 0;
    while i < |s.sas| && !used
      invariant i <= |s.sas|
      invariant used ==> InboundSpiInUse(s, spi)
      invariant !used ==> forall k | 0 <= k < i :: !(s.sas[k] in s.entries && s.entries[s.sas[k]].sa.spi == spi
                                                     && s.entries[s.sas[k]].sa.inbound)
    {
      var e := s.sas[i];
      if e in s.entries && s.entries[e].sa.spi == spi && s.entries[e].sa.inbound {
        used := true;
        assert e in s.sas;
      }
      i := i + 1;
    }
    if !used {
      assert forall e | e in s.sas :: !(e in s.entries && s.entries[e].sa.spi == spi && s.entries[e].sa.inbound);
    }
  }

  /** get_spi: draws until an SPI is free; it fails when the RNG does, that is when `draws` is used up.
      The SPI returned is the first free one, in range, and from now on reserved; it was neither
      reserved nor used by an installed inbound SA. */
  method AllocateSpi(s: State, t: Tid, spiMin: U32, spiMax: U32, draws: seq<U32>) returns (r: Option<U32>, s1: State)
    requires t in s.threads && s.threads[t].Idle?
    ensures r.None? ==> s1 == s && forall i | 0 <= i < |draws| :: Taken(s, Candidate(spiMin, spiMax, draws[i]))
    ensures r.Some? ==>
              && !Taken(s, r.value)
              && Low(spiMin, spiMax) <= SwapBytes(r.value) <= High(spiMin, spiMax) && SPI_FLOOR <= SwapBytes(r.value)
              && Enabled(s, GetSpi(t, r.value)) && s1 == Apply(s, GetSpi(t, r.value))
              && exists i | 0 <= i < |draws| :: r.value == Candidate(spiMin, spiMax, draws[i])
                   && forall k | 0 <= k < i :: Taken(s, Candidate(spiMin, spiMax, draws[k]))
  {
    var i := 0;
    while i < |draws|
      invariant i <= |draws|
      invariant forall k | 0 <= k < i :: Taken(s, Candidate(spiMin, spiMax, draws[k]))
    {
      var spi := Candidate(spiMin, spiMax, draws[i]);
      var used := FindInbound(s, spi);
      if spi !in s.reserved && !used {
        CandidateInRange(spiMin, spiMax, draws[i]);
        return Some(spi), s.(reserved := s.reserved + {spi});
      }
      i := i + 1;
    }
    return None, s;
  }

  /** The calls that give a reserved SPI back: add_sa with the update flag, and del_sa. */
  predicate GivesBack(a: Step, spi: nat) {
    (a.AddSa? && a.update && a.sa.spi == spi) || (a.DelSa? && a.spi == spi)
  }

  /** A step leaves the reservations alone unless it reserves an SPI or gives one back. */
  lemma StepReservations(s: State, a: Step, spi: nat)
    requires Enabled(s, a) && spi in s.reserved && !GivesBack(a, spi)
    ensures spi in Apply(s, a).reserved
  {
    match a
    case Flush(t) => FlushReservations(s, t, s.sas);
    case Resume(t, _) =>
      if s.threads[t].Removing? {
        var th := s.threads[t];
        var s1 := Drain(s, t, th.e, th.why, th.drained);
        if th.why.ForFlush? && s1.threads[t].Idle? { FlushReservations(s1, t, After(s.sas, th.e)); }
      }
    case _ =>
  }

  lemma {:induction false} FlushReservations(s: State, t: Tid, rest: seq<EntryId>)
    requires t in s.threads
    ensures FlushFrom(s, t, rest).reserved == s.reserved
    decreases |rest|
  {
    if rest != [] {
      if rest[0] !in s.entries { FlushReservations(s, t, rest[1..]); }
      else {
        var s1 := BeginRemove(s, t, rest[0], ForFlush);
        if s1.threads[t].Idle? { FlushReservations(s1, t, rest[1..]); }
      }
    }
  }

  lemma {:induction false} StaysReserved(states: seq<State>, steps: seq<Step>, i: nat, j: nat, spi: nat)
    requires IsRun(states, steps) && i <= j < |states| && spi in states[i].reserved
    requires forall k | i <= k < j :: !GivesBack(steps[k], spi)
    ensures spi in states[j].reserved
  {
    if i < j {
      StaysReserved(states, steps, i, j - 1, spi);
      assert Follows(states, steps, j - 1);
      StepReservations(states[j - 1], steps[j - 1], spi);
    }
  }

  /** Over every run: between two calls of get_spi that return the same SPI it was given back, and the
      second call finds it used by no installed inbound SA. */
  lemma NotReissued(states: seq<State>, steps: seq<Step>, i: nat, j: nat)
    requires IsRun(states, steps) && i < j < |steps|
    requires steps[i].GetSpi? && steps[j].GetSpi? && steps[i].spi == steps[j].spi
    ensures exists k | i < k < j :: GivesBack(steps[k], steps[i].spi)
    ensures forall e | e in states[j].sas && e in states[j].entries && states[j].entries[e].sa.inbound ::
              states[j].entries[e].sa.spi != steps[j].spi
  {
    var spi := steps[i].spi;
    assert Follows(states, steps, i) && Follows(states, steps, j);
    if forall k | i < k < j :: !GivesBack(steps[k], spi) {
      StaysReserved(states, steps, i + 1, j, spi);
    }
  }
}
