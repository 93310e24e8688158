/** CBC record protection with implicit (tls_aead_impl.c) and explicit (tls_aead_expl.c) IVs. */
module TlsCbc {
  import opened Bytes
  import opened Words
  import CT = ConstantTime

  /** Block cipher in CBC mode and MAC, with their keys. */
  datatype Suite = Suite(block: nat, ivLen: nat, macLen: nat,
                         encrypt: (seq<Byte>, seq<Byte>) -> seq<Byte>,
                         decrypt: (seq<Byte>, seq<Byte>) -> seq<Byte>,
                         mac: seq<Byte> -> seq<Byte>)

  /** Block and MAC sizes are bytes; decryption undoes encryption of whole blocks and lengths are kept. */
  ghost predicate Good(u: Suite) {
    && 0 < u.block < 256 && u.macLen < 256
    && (forall iv: seq<Byte>, t: seq<Byte> :: |u.encrypt(iv, t)| == |t| && |u.decrypt(iv, t)| == |t|)
    && (forall iv: seq<Byte>, t: seq<Byte> | |t| % u.block == 0 :: u.decrypt(iv, u.encrypt(iv, t)) == t)
    && (forall t: seq<Byte> :: |u.mac(t)| == u.macLen)
  }

  /** Whether the signer and the crypter succeed when they are called. */
  datatype Working = Working(signer: bool, crypter: bool)

  /** What distinguishes one record from another in the MAC. */
  datatype Meta = Meta(seqno: U64, kind: Byte, version: U16)

  function SigHeader(m: Meta, len: nat): seq<Byte> {
    PutU64(m.seqno) + [m.kind] + PutU16(m.version) + PutU16(len % 0x1_0000)
  }

  function Mac(u: Suite, m: Meta, data: seq<Byte>): seq<Byte> {
    u.mac(SigHeader(m, |data|) + data)
  }

  function Repeat(b: Byte, n: nat): (r: seq<Byte>)
    ensures |r| == n && forall i | 0 <= i < n :: r[i] == b
  {
    seq(n, _ => b)
  }

  /** data, MAC, padding, padding length */
  function Padded(u: Suite, m: Meta, data: seq<Byte>): seq<Byte>
    requires 0 < u.block < 256
  {
    var mac := Mac(u, m, data);
    var padlen := PadLen(|data| + |mac| + 1, u.block);
    data + mac + Repeat(padlen, padlen) + [padlen]
  }

  // ---- removing padding and MAC ----

  /** The last padlen bytes before the length byte all equal it. */
  ghost predicate PaddingGood(p: seq<Byte>)
    requires |p| > 0
  {
    var padlen: int := p[|p| - 1];
    padlen < |p| && forall j | |p| - 1 - padlen <= j < |p| - 1 :: p[j] == padlen
  }

  /** The plain rule with branches: the data, if padding, length and MAC are right. */
  ghost function Unwrapped(u: Suite, m: Meta, p: seq<Byte>): Option<seq<Byte>>
    requires |p| > 0
  {
    var padlen: int := p[|p| - 1];
    if !PaddingGood(p) then None
    else if |p| - padlen - 1 < u.macLen then None
    else
      var data := p[..|p| - padlen - 1 - u.macLen];
      if Mac(u, m, data) == p[|data|..|data| + u.macLen] then Some(data) else None
  }

  /** The padding loop of the source: no branch depends on the bytes. */
  method PaddingBranchFree(data: seq<Byte>) returns (valid: nat)
    requires 0 < |data| < 2 * CT.HALF64
    ensures valid == CT.AsBit(PaddingGood(data))
  {
    var padlen: nat := data[|data| - 1];
    CT.LtIsLess(padlen, |data|, CT.HALF64);
    valid := CT.Lt(padlen, |data|, CT.HALF64);
    var i := 1;
    while i < Min(|data|, 256)
      invariant 1 <= i <= Min(|data|, 256) && valid <= 1
      invariant valid == 1 <==>
                padlen < |data|
                && forall j | |data| - i <= j < |data| - 1 && |data| - 1 - padlen <= j :: data[j] == padlen
    {
      CT.LtIsLess(padlen, i, CT.HALF32);
      CT.NeqIsUnequal(data[|data| - 1 - i], padlen, CT.HALF32);
      // ignore comparison for bytes outside of the padding
      valid := BitAnd(valid, BitOr(CT.Lt(padlen, i, CT.HALF32), CT.Eq(data[|data| - 1 - i], padlen, CT.HALF32)));
      i := i + 1;
    }
  }

  function BitAnd(a: nat, b: nat): nat {
    if a == 1 && b == 1 then 1 else 0
  }

  function BitOr(a: nat, b: nat): nat {
    if a == 1 || b == 1 then 1 else 0
  }

  /** a - b in 64-bit arithmetic. */
  function Minus64(a: int, b: int): nat {
    (a - b) % (2 * CT.HALF64)
  }

  lemma NoWrap(a: nat, b: nat)
    requires b <= a < 2 * CT.HALF64
    ensures Minus64(a, b) == a - b
  {
  }

  /** Whether padding and length are right, and then how long the data is. */
  ghost predicate Sized(p: seq<Byte>, macLen: nat)
    requires |p| > 0
  {
    var padlen: int := p[|p| - 1];
    PaddingGood(p) && |p| - padlen - 1 >= macLen
  }

  method CutBranchFree(data: seq<Byte>, macLen: nat) returns (valid: nat, len: nat)
    requires 0 < |data| < 2 * CT.HALF64 && macLen < 256
    ensures valid == CT.AsBit(Sized(data, macLen)) && len <= |data|
    ensures valid == 1 ==> len == |data| - data[|data| - 1] - 1 - macLen
  {
    var padlen: nat := data[|data| - 1];
    valid := PaddingBranchFree(data);
    CT.SelectChooses(Minus64(|data|, padlen + 1), |data|, valid, CT.HALF64);
    len := CT.Select(Minus64(|data|, padlen + 1), |data|, valid, CT.HALF64);
    if padlen < |data| { NoWrap(|data|, padlen + 1); }
    assert len == if PaddingGood(data) then |data| - padlen - 1 else |data|;

    // make sure to always verify a MAC value
    CT.LtIsLess(len, macLen, CT.HALF64);
    valid := BitAnd(valid, CT.Ge(len, macLen, CT.HALF64));
    CT.SelectChooses(Minus64(len, macLen), len, valid, CT.HALF64);
    if macLen <= len { NoWrap(len, macLen); }
    len := CT.Select(Minus64(len, macLen), len, valid, CT.HALF64);
  }

  /** The MAC bytes that are compared: those behind the data, or some bytes of the same number if the sizes are
      wrong. */
  method MacBranchFree(data: seq<Byte>, macLen: nat, valid: nat, len: nat) returns (mac: seq<Byte>)
    requires valid <= 1 && macLen < 256 && len <= |data| < 2 * CT.HALF64 && (valid == 1 ==> len + macLen <= |data|)
    ensures |mac| == macLen && (valid == 1 ==> mac == data[len..len + macLen])
  {
    CT.SelectChooses(len, 0, valid, CT.HALF64);
    CT.SelectChooses(macLen, Min(macLen, len), valid, CT.HALF32);
    var at := CT.Select(len, 0, valid, CT.HALF64);
    var n := CT.Select(macLen, Min(macLen, len), valid, CT.HALF32);
    mac := data[at..at + n] + Zeros(macLen - n);
    assert valid == 1 ==> mac == data[at..at + n];
  }

  /** The whole check as the source makes it, without branching on the bytes: verdict and length are those of the plain
      rule. */
  method UnwrapBranchFree(u: Suite, m: Meta, data: seq<Byte>) returns (ok: bool, len: nat)
    requires 0 < |data| < 2 * CT.HALF64 && u.macLen < 256
    ensures ok <==> Unwrapped(u, m, data).Some?
    ensures ok ==> len <= |data| && data[..len] == Unwrapped(u, m, data).value
  {
    var valid;
    valid, len := CutBranchFree(data, u.macLen);
    var mac := MacBranchFree(data, u.macLen, valid, len);
    ok := Mac(u, m, data[..len]) == mac && valid == 1;
  }

  // ---- implicit IV: the last ciphertext block of a record is the IV of the next ----

  function NextIv(ivLen: nat, text: seq<Byte>): seq<Byte>
    requires ivLen <= |text|
  {
    text[|text| - ivLen..]
  }

  function Sealed(u: Suite, iv: seq<Byte>, m: Meta, data: seq<Byte>): seq<Byte>
    requires 0 < u.block < 256
  {
    u.encrypt(iv, Padded(u, m, data))
  }

  predicate Acceptable(u: Suite, text: seq<Byte>) {
    u.block > 0 && |text| >= u.block && |text| % u.block == 0
  }

  ghost function Opened(u: Suite, iv: seq<Byte>, m: Meta, text: seq<Byte>): Option<seq<Byte>>
    requires Good(u)
  {
    if Acceptable(u, text) then Unwrapped(u, m, u.decrypt(iv, text)) else None
  }

  class ImplicitIv {
    const u: Suite
    var iv: seq<Byte>

    constructor (u: Suite, iv: seq<Byte>)
      ensures this.u == u && this.iv == iv
    {
      this.u := u;
      this.iv := iv;
    }

    method Encrypt(m: Meta, data: seq<Byte>, w: Working) returns (ok: bool, out: seq<Byte>)
      requires Good(u)
      modifies this
      ensures ok <==> w.signer && w.crypter && |Sealed(u, old(iv), m, data)| >= |old(iv)|
      ensures ok ==> out == Sealed(u, old(iv), m, data)
      ensures iv == if ok then NextIv(|old(iv)|, out) else old(iv)
    {
      if !w.signer || !w.crypter {
        return false, data;
      }
      var mac := u.mac(SigHeader(m, |data|) + data);
      var padlen := PadLen(|data| + |mac| + 1, u.block);
      out := u.encrypt(iv, data + mac + Repeat(padlen, padlen) + [padlen]);
      if |out| < |iv| {
        return false, out;
      }
      iv := out[|out| - |iv|..];
      return true, out;
    }

    method Decrypt(m: Meta, text: seq<Byte>, w: Working) returns (ok: bool, data: seq<Byte>)
      requires Good(u) && |text| < 2 * CT.HALF64
      modifies this
      ensures ok <==> w.signer && w.crypter && |text| >= |old(iv)| && Opened(u, old(iv), m, text).Some?
      ensures ok ==> data == Opened(u, old(iv), m, text).value
      ensures iv == if Acceptable(u, text) && |text| >= |old(iv)| then NextIv(|old(iv)|, text) else old(iv)
    {
      data := [];
      if |text| < u.block || |text| < |iv| || |text| % u.block != 0 {
        return false, data;
      }
      var plain := u.decrypt(iv, text);
      iv := text[|text| - |iv|..];
      if !w.crypter {
        return false, data;
      }
      var len;
      ok, len := UnwrapBranchFree(u, m, plain);
      ok := ok && w.signer;
      if ok {
        data := plain[..len];
      }
    }
  }

  // ---- explicit IV: sent in front of every record ----

  class ExplicitIv {
    const u: Suite

    constructor (u: Suite)
      ensures this.u == u
    {
      this.u := u;
    }

    method Encrypt(m: Meta, data: seq<Byte>, iv: Option<seq<Byte>>, w: Working) returns (ok: bool, out: seq<Byte>)
      requires Good(u) && (iv.Some? ==> |iv.value| == u.ivLen)
      ensures ok <==> w.signer && w.crypter && iv.Some?
      ensures ok ==> out == iv.value + Sealed(u, iv.value, m, data)
    {
      if !w.signer || iv.None? || !w.crypter {
        return false, data;
      }
      var mac := u.mac(SigHeader(m, |data|) + data);
      var padlen := PadLen(|data| + |mac| + 1, u.block);
      var text := u.encrypt(iv.value, data + mac + Repeat(padlen, padlen) + [padlen]);
      return true, iv.value + text;
    }

    method Decrypt(m: Meta, record: seq<Byte>, w: Working) returns (ok: bool, data: seq<Byte>)
      requires Good(u) && |record| < 2 * CT.HALF64
      ensures ok <==> && w.signer && w.crypter && |record| >= u.ivLen
                      && Opened(u, record[..u.ivLen], m, record[u.ivLen..]).Some?
      ensures ok ==> data == Opened(u, record[..u.ivLen], m, record[u.ivLen..]).value
    {
      data := [];
      if |record| < u.ivLen {
        return false, data;
      }
      var iv := record[..u.ivLen];
      var text := Skip(record, u.ivLen);
      assert text == record[u.ivLen..];
      if |text| < u.block || |text| % u.block != 0 || !w.crypter {
        return false, data;
      }
      var plain := u.decrypt(iv, text);
      var len;
      ok, len := UnwrapBranchFree(u, m, plain);
      ok := ok && w.signer;
      if ok {
        data := plain[..len];
      }
    }
  }

  // ---- round trips ----

  lemma PaddedShape(u: Suite, m: Meta, data: seq<Byte>)
    requires Good(u)
    ensures var p := Padded(u, m, data);
            |p| > 0 && |p| % u.block == 0 && |p| >= u.block && Unwrapped(u, m, p) == Some(data)
  {
    var mac := Mac(u, m, data);
    var padlen := PadLen(|data| + |mac| + 1, u.block);
    var p := Padded(u, m, data);
    assert |p| == |data| + |mac| + padlen + 1 && p[|p| - 1] == padlen;
    forall j | |p| - 1 - padlen <= j < |p| - 1 ensures p[j] == padlen {
      assert p[j] == Repeat(padlen, padlen)[j - |data| - |mac|];
    }
    assert p[..|data|] == data && p[|data|..|data| + u.macLen] == mac;
    if |p| < u.block { DivModUnique(|p|, u.block, 0, |p|); }
  }

  /** decrypt undoes encrypt for every record, with any IV both sides share. */
  lemma OpenUndoesSeal(u: Suite, iv: seq<Byte>, m: Meta, data: seq<Byte>)
    requires Good(u)
    ensures Acceptable(u, Sealed(u, iv, m, data)) && Opened(u, iv, m, Sealed(u, iv, m, data)) == Some(data)
  {
    PaddedShape(u, m, data);
  }

  /** A plaintext is taken for data if and only if it is data, MAC, any number of equal padding bytes, and that
      number. */
  lemma UnwrapsExactly(u: Suite, m: Meta, p: seq<Byte>, data: seq<Byte>)
    requires Good(u) && |p| > 0
    ensures Unwrapped(u, m, p) == Some(data) <==>
            exists n: Byte :: p == data + Mac(u, m, data) + Repeat(n, n) + [n]
  {
    if Unwrapped(u, m, p) == Some(data) {
      var n := p[|p| - 1];
      Reassembled(p, data, Mac(u, m, data), n);
    }
    if n: Byte :| p == data + Mac(u, m, data) + Repeat(n, n) + [n] {
      InParts(p, data, Mac(u, m, data), n);
    }
  }

  lemma Reassembled(p: seq<Byte>, data: seq<Byte>, mac: seq<Byte>, n: Byte)
    requires |p| == |data| + |mac| + n + 1 && p[..|data|] == data && p[|data|..|data| + |mac|] == mac
    requires p[|p| - 1] == n && forall j | |p| - 1 - n <= j < |p| - 1 :: p[j] == n
    ensures p == data + mac + Repeat(n, n) + [n]
  {
    assert p[|data| + |mac|..|p| - 1] == Repeat(n, n);
    assert p == p[..|data|] + p[|data|..|data| + |mac|] + p[|data| + |mac|..|p| - 1] + [p[|p| - 1]];
  }

  lemma InParts(p: seq<Byte>, data: seq<Byte>, mac: seq<Byte>, n: Byte)
    requires p == data + mac + Repeat(n, n) + [n]
    ensures |p| == |data| + |mac| + n + 1 && p[..|data|] == data && p[|data|..|data| + |mac|] == mac
    ensures p[|p| - 1] == n && forall j | |p| - 1 - n <= j < |p| - 1 :: p[j] == n
  {
    forall j | |p| - 1 - n <= j < |p| - 1 ensures p[j] == n {
      assert p[j] == Repeat(n, n)[j - |data| - |mac|];
    }
  }

  lemma SigHeaderInjective(m: Meta, n: Meta, len: nat)
    requires SigHeader(m, len) == SigHeader(n, len)
    ensures m == n
  {
    var h, g := SigHeader(m, len), SigHeader(n, len);
    assert h[..8] == PutU64(m.seqno) && g[..8] == PutU64(n.seqno);
    PutU64Injective(m.seqno, n.seqno);
    assert h[8] == m.kind && g[8] == n.kind;
    U16RoundTrip([], m.version, []);
    U16RoundTrip([], n.version, []);
    assert h[9..11] == [] + PutU16(m.version) + [] && g[9..11] == [] + PutU16(n.version) + [];
  }

  /** With a MAC without collisions, a record sealed under one sequence number, type and version is not opened under
      another: it is neither repeated nor moved nor taken for something else. */
  lemma RecordBound(u: Suite, iv: seq<Byte>, m: Meta, n: Meta, data: seq<Byte>)
    requires Good(u) && m != n && forall x: seq<Byte>, y: seq<Byte> | u.mac(x) == u.mac(y) :: x == y
    ensures Opened(u, iv, n, Sealed(u, iv, m, data)) == None
  {
    PaddedShape(u, m, data);
    var p := Padded(u, m, data);
    assert Unwrapped(u, m, p) == Some(data);
    if Unwrapped(u, n, p).Some? {
      var h, g := SigHeader(m, |data|), SigHeader(n, |data|);
      assert u.mac(h + data) == u.mac(g + data);
      assert h == (h + data)[..13] && g == (g + data)[..13];
      SigHeaderInjective(m, n, |data|);
    }
  }

  datatype Plain = Plain(meta: Meta, data: seq<Byte>)

  /** The sender's ciphertexts for a sequence of records, the IV chained from one to the next. */
  function SealAll(u: Suite, iv: seq<Byte>, rs: seq<Plain>): seq<seq<Byte>>
    requires 0 < u.block < 256
    decreases rs
  {
    if rs == [] then []
    else
      var text := Sealed(u, iv, rs[0].meta, rs[0].data);
      [text] + SealAll(u, if |iv| <= |text| then NextIv(|iv|, text) else iv, rs[1..])
  }

  /** The IV an end has after a sequence of ciphertexts. */
  function ChainedIv(iv: seq<Byte>, texts: seq<seq<Byte>>): seq<Byte>
    decreases texts
  {
    if texts == [] then iv
    else ChainedIv(if |iv| <= |texts[0]| then NextIv(|iv|, texts[0]) else iv, texts[1..])
  }

  /** The IV the sender has after a sequence of records. */
  function SenderIv(u: Suite, iv: seq<Byte>, rs: seq<Plain>): seq<Byte>
    requires 0 < u.block < 256
    decreases rs
  {
    if rs == [] then iv
    else
      var text := Sealed(u, iv, rs[0].meta, rs[0].data);
      SenderIv(u, if |iv| <= |text| then NextIv(|iv|, text) else iv, rs[1..])
  }

  lemma {:induction false} SealAllLength(u: Suite, iv: seq<Byte>, rs: seq<Plain>)
    requires 0 < u.block < 256
    ensures |SealAll(u, iv, rs)| == |rs|
    decreases rs
  {
    if rs != [] {
      var text := Sealed(u, iv, rs[0].meta, rs[0].data);
      SealAllLength(u, if |iv| <= |text| then NextIv(|iv|, text) else iv, rs[1..]);
    }
  }

  /** Both ends move their IV in the same way. */
  lemma {:induction false} IvsAgree(u: Suite, iv: seq<Byte>, rs: seq<Plain>, k: nat)
    requires 0 < u.block < 256 && k <= |rs| == |SealAll(u, iv, rs)|
    ensures ChainedIv(iv, SealAll(u, iv, rs)[..k]) == SenderIv(u, iv, rs[..k])
    ensures k < |rs| ==> SealAll(u, iv, rs)[k] == Sealed(u, SenderIv(u, iv, rs[..k]), rs[k].meta, rs[k].data)
    decreases k
  {
    if k > 0 {
      var text := Sealed(u, iv, rs[0].meta, rs[0].data);
      var iv1 := if |iv| <= |text| then NextIv(|iv|, text) else iv;
      IvsAgree(u, iv1, rs[1..], k - 1);
      var texts := SealAll(u, iv, rs);
      assert texts[..k][0] == text && texts[..k][1..] == SealAll(u, iv1, rs[1..])[..k - 1];
      assert rs[..k][0] == rs[0] && rs[..k][1..] == rs[1..][..k - 1];
    }
  }

  /** With implicit IVs, over any in-order run: after every number of records, the last included, both ends hold the
      same IV; the next record is sealed under it and recovered with it. */
  lemma ChainStaysInStep(u: Suite, iv: seq<Byte>, rs: seq<Plain>, k: nat)
    requires Good(u) && k <= |rs|
    ensures |SealAll(u, iv, rs)| == |rs|
    ensures var texts := SealAll(u, iv, rs);
            var now := SenderIv(u, iv, rs[..k]);
            && ChainedIv(iv, texts[..k]) == now
            && (k < |rs| ==> texts[k] == Sealed(u, now, rs[k].meta, rs[k].data)
                             && Opened(u, now, rs[k].meta, texts[k]) == Some(rs[k].data))
  {
    SealAllLength(u, iv, rs);
    IvsAgree(u, iv, rs, k);
    if k < |rs| {
      OpenUndoesSeal(u, SenderIv(u, iv, rs[..k]), rs[k].meta, rs[k].data);
    }
  }

  /** One record from one end to the other. */
  method Exchange(sender: ImplicitIv, receiver: ImplicitIv, r: Plain) returns (data: seq<Byte>)
    requires sender != receiver && sender.u == receiver.u && sender.iv == receiver.iv
    requires Good(sender.u) && |sender.iv| <= sender.u.block && |Padded(sender.u, r.meta, r.data)| < 2 * CT.HALF64
    modifies sender, receiver
    ensures data == r.data && |sender.iv| == |old(sender.iv)|
            && |Sealed(sender.u, old(sender.iv), r.meta, r.data)| >= |sender.iv|
    ensures sender.iv == receiver.iv == NextIv(|sender.iv|, Sealed(sender.u, old(sender.iv), r.meta, r.data))
  {
    OpenUndoesSeal(sender.u, sender.iv, r.meta, r.data);
    var _, text := sender.Encrypt(r.meta, r.data, Working(true, true));
    var _, plain := receiver.Decrypt(r.meta, text, Working(true, true));
    data := plain;
  }

  /** Two ends that start with the same IV, over any in-order run of records: every record is recovered, and after it
      both hold the same IV, the one the records so far lead to. */
  method Converse(sender: ImplicitIv, receiver: ImplicitIv, rs: seq<Plain>) returns (received: seq<seq<Byte>>)
    requires sender != receiver && sender.u == receiver.u && sender.iv == receiver.iv
    requires Good(sender.u) && |sender.iv| <= sender.u.block
    requires forall i | 0 <= i < |rs| :: |Padded(sender.u, rs[i].meta, rs[i].data)| < 2 * CT.HALF64
    modifies sender, receiver
    ensures sender.iv == receiver.iv == SenderIv(sender.u, old(sender.iv), rs)
    ensures |received| == |rs| && forall i | 0 <= i < |rs| :: received[i] == rs[i].data
    decreases |rs|
  {
    if rs == [] {
      return [];
    }
    var data := Exchange(sender, receiver, rs[0]);
    var rest := Converse(sender, receiver, rs[1..]);
    received := [data] + rest;
  }
}
