/** TLS 1.3 record protection (tls_aead_seq.c): nonces from sequence numbers, the type hidden behind the data. */
module TlsSeq {
  import opened Bytes
  import opened Words
  import TlsRecords

  const TLS_APPLICATION_DATA: Byte := 23

  /** An AEAD transform whose key holds a salt: it uses salt + IV as its nonce. */
  datatype Aead = Aead(ivLen: nat, icvLen: nat,
                       seal: (seq<Byte>, seq<Byte>, seq<Byte>) -> Option<seq<Byte>>,
                       open: (seq<Byte>, seq<Byte>, seq<Byte>) -> Option<seq<Byte>>)

  ghost predicate Correct(a: Aead) {
    && a.icvLen < 256
    && forall aad: seq<Byte>, nonce: seq<Byte>, p: seq<Byte> | a.seal(aad, nonce, p).Some? ::
         |a.seal(aad, nonce, p).value| == |p| + a.icvLen && a.open(aad, nonce, a.seal(aad, nonce, p).value) == Some(p)
  }

  /** The sequence number, left-padded with zeros to n bytes. */
  function PaddedSeq(n: nat, seqno: U64): (r: seq<Byte>)
    requires n >= 8
    ensures |r| == n
  {
    Zeros(n - 8) + PutU64(seqno)
  }

  /** What generate_iv computes: the padded number, with the IV from the key material added onto its end. */
  function RecordIv(ivLen: nat, key: seq<Byte>, seqno: U64): (r: seq<Byte>)
    requires ivLen >= 8 && ivLen >= |key|
    ensures |r| == ivLen
  {
    var p := PaddedSeq(ivLen, seqno);
    p[..ivLen - |key|] + XorSeq(p[ivLen - |key|..], key)
  }

  function Header(len: nat): seq<Byte> {
    [TLS_APPLICATION_DATA] + PutU16(TlsRecords.TLS_1_2) + PutU16(len % 0x1_0000)
  }

  datatype Content = Content(kind: Byte, data: seq<Byte>)

  /** The position behind the last byte that is not zero. */
  function Significant(p: seq<Byte>): (n: nat)
    ensures n <= |p| && (n > 0 ==> p[n - 1] != 0) && forall i | n <= i < |p| :: p[i] == 0
  {
    if p == [] then 0 else if p[|p| - 1] != 0 then |p| else Significant(p[..|p| - 1])
  }

  /** What a plaintext means: trailing zeros are padding, the last other byte is the type. */
  function Parsed(p: seq<Byte>): Option<Content> {
    var n := Significant(p);
    if n < 1 then None else Some(Content(p[n - 1], p[..n - 1]))
  }

  class SeqAead {
    const a: Aead
    const saltLen: nat
    var iv: seq<Byte>
    // held by the transform as part of its key
    var salt: seq<Byte>

    constructor (a: Aead, saltLen: nat)
      ensures this.a == a && this.saltLen == saltLen && iv == [] && salt == []
    {
      this.a := a;
      this.saltLen := saltLen;
      iv, salt := [], [];
    }

    /** set_keys: the front of the IV goes to the transform as its salt; accepted is the transform's answer to the
        key. */
    method SetKeys(mac: seq<Byte>, key: seq<Byte>, accepted: bool) returns (ok: bool)
      modifies this
      ensures ok == (mac == [] && |key| >= saltLen && accepted)
      ensures if mac == [] && |key| >= saltLen then salt + iv == key && |salt| == saltLen
              else salt == old(salt) && iv == old(iv)
    {
      if |mac| != 0 || |key| < saltLen {
        return false;
      }
      salt, iv := key[..saltLen], key[saltLen..];
      return accepted;
    }

    /** generate_iv, in place. */
    method GenerateIv(seqno: U64, out: array<Byte>) returns (ok: bool)
      modifies out
      ensures ok == (out.Length >= 8 && out.Length >= |iv|)
      ensures ok ==> out[..] == RecordIv(out.Length, iv, seqno)
      ensures !ok ==> out[..] == old(out[..])
    {
      if out.Length < 8 || out.Length < |iv| {
        return false;
      }
      Put(out, 0, Zeros(out.Length));
      Put(out, out.Length - 8, PutU64(seqno));
      assert out[..] == PaddedSeq(out.Length, seqno);
      XorInto(out, out.Length - |iv|, iv);
      assert out[..] == RecordIv(out.Length, iv, seqno);
      return true;
    }

    method Encrypt(seqno: U64, kind: Byte, data: seq<Byte>) returns (ok: bool, outKind: Byte, out: seq<Byte>)
      requires a.icvLen < 256
      ensures ok <==> a.ivLen >= 8 && a.ivLen >= |iv|
                      && a.seal(Header(|data| + 1 + a.icvLen), salt + RecordIv(a.ivLen, iv, seqno), data + [kind]).Some?
      ensures ok ==> outKind == TLS_APPLICATION_DATA
                     && a.seal(Header(|data| + 1 + a.icvLen), salt + RecordIv(a.ivLen, iv, seqno), data + [kind])
                        == Some(out)
      ensures !ok ==> outKind == kind && out == data
    {
      outKind, out := kind, data;
      var buf: array<Byte> := new Byte[a.ivLen];
      ok := GenerateIv(seqno, buf);
      if !ok {
        return;
      }
      var text := a.seal(Header(|data| + 1 + a.icvLen), salt + buf[..], data + [kind]);
      if text.Some? {
        return true, TLS_APPLICATION_DATA, text.value;
      }
      return false, kind, data;
    }

    method Decrypt(seqno: U64, text: seq<Byte>) returns (ok: bool, kind: Byte, data: seq<Byte>)
      ensures ok <==> && a.ivLen >= 8 && a.ivLen >= |iv| && |text| >= a.icvLen
                      && a.open(Header(|text|), salt + RecordIv(a.ivLen, iv, seqno), text).Some?
                      && Parsed(a.open(Header(|text|), salt + RecordIv(a.ivLen, iv, seqno), text).value).Some?
      ensures ok ==> var plain := a.open(Header(|text|), salt + RecordIv(a.ivLen, iv, seqno), text).value;
                     Parsed(plain) == Some(Content(kind, data))
    {
      kind, data := 0, [];
      var buf: array<Byte> := new Byte[a.ivLen];
      ok := GenerateIv(seqno, buf);
      if !ok {
        return;
      }
      if |text| < a.icvLen {
        return false, kind, data;
      }
      var plain := a.open(Header(|text|), salt + buf[..], text);
      if plain.None? {
        return false, kind, data;
      }
      var len := TrimPadding(plain.value);
      if len < 1 {
        return false, kind, data;
      }
      return true, plain.value[len - 1], plain.value[..len - 1];
    }
  }

  /** The loop of decrypt that drops the padding behind the type. */
  method TrimPadding(p: seq<Byte>) returns (len: nat)
    ensures len == Significant(p)
  {
    len := |p|;
    while len > 0 && p[len - 1] == 0
      invariant len <= |p| && Significant(p[..len]) == Significant(p)
    {
      assert p[..len][..len - 1] == p[..len - 1];
      len := len - 1;
    }
  }

  // ---- nonces ----

  /** Salt and IV together are the static IV XORed with the left-padded sequence number, as section 5.3 of RFC 8446 has
      it. */
  lemma NonceIsStaticXorSeq(ivLen: nat, salt: seq<Byte>, iv: seq<Byte>, seqno: U64)
    requires ivLen >= 8 && |iv| == ivLen
    ensures salt + RecordIv(ivLen, iv, seqno) == XorSeq(PaddedSeq(|salt| + ivLen, seqno), salt + iv)
  {
    var p, q := PaddedSeq(ivLen, seqno), PaddedSeq(|salt| + ivLen, seqno);
    assert p[0..] == p && p[..0] == [];
    forall i | 0 <= i < |salt| + ivLen
      ensures (salt + RecordIv(ivLen, iv, seqno))[i] == XorSeq(q, salt + iv)[i]
    {
      if i < |salt| {
        assert q[i] == 0;
        XorUndoes(salt[i], 0);
      } else {
        assert q[i] == p[i - |salt|];
      }
    }
  }

  /** Distinct sequence numbers give distinct nonces under one key, whatever the IV's length. */
  lemma NoncesDistinct(ivLen: nat, salt: seq<Byte>, iv: seq<Byte>, n1: U64, n2: U64)
    requires ivLen >= 8 && ivLen >= |iv| && n1 != n2
    ensures salt + RecordIv(ivLen, iv, n1) != salt + RecordIv(ivLen, iv, n2)
  {
    var r1, r2 := RecordIv(ivLen, iv, n1), RecordIv(ivLen, iv, n2);
    if salt + r1 == salt + r2 {
      assert r1 == (salt + r1)[|salt|..] && r2 == (salt + r2)[|salt|..];
      SameIvSameSeq(ivLen, iv, n1, n2);
    }
  }

  lemma SameIvSameSeq(ivLen: nat, iv: seq<Byte>, n1: U64, n2: U64)
    requires ivLen >= 8 && ivLen >= |iv| && RecordIv(ivLen, iv, n1) == RecordIv(ivLen, iv, n2)
    ensures n1 == n2
  {
    var p1, p2, off := PaddedSeq(ivLen, n1), PaddedSeq(ivLen, n2), ivLen - |iv|;
    var r1, r2 := RecordIv(ivLen, iv, n1), RecordIv(ivLen, iv, n2);
    assert p1[..off] == r1[..off] && p2[..off] == r2[..off];
    assert XorSeq(p1[off..], iv) == r1[off..] && XorSeq(p2[off..], iv) == r2[off..];
    XorSeqUndoes(p1[off..], iv);
    XorSeqUndoes(p2[off..], iv);
    assert p1 == p1[..off] + p1[off..] && p2 == p2[..off] + p2[off..];
    assert p1[ivLen - 8..] == PutU64(n1) && p2[ivLen - 8..] == PutU64(n2);
    PutU64Injective(n1, n2);
  }

  // ---- content ----

  /** The type and the data are read back from data + [type] if and only if the type is not zero: data may end in zeros
      or be empty, but a zero type is taken for padding. */
  lemma ContentReadBack(kind: Byte, data: seq<Byte>)
    ensures Parsed(data + [kind]) == Some(Content(kind, data)) <==> kind != 0
  {
    var p := data + [kind];
    assert p[|p| - 1] == kind && p[..|p| - 1] == data;
    if Parsed(p).Some? { assert Parsed(p).value.kind != 0; }
  }

  /** What is read is exactly data and a type other than zero in front of any number of zeros. */
  lemma ContentExactly(p: seq<Byte>, kind: Byte, data: seq<Byte>)
    ensures Parsed(p) == Some(Content(kind, data)) <==>
            kind != 0 && |p| > |data| && p == data + [kind] + Zeros(|p| - |data| - 1)
  {
    var n := Significant(p);
    if Parsed(p) == Some(Content(kind, data)) {
      assert p[n..] == Zeros(|p| - n);
      assert p == p[..n - 1] + [p[n - 1]] + p[n..];
    }
    if kind != 0 && |p| > |data| && p == data + [kind] + Zeros(|p| - |data| - 1) {
      assert p[|data|] == kind;
      assert n == |data| + 1;
      assert p[..n - 1] == data;
    }
  }

  /** decrypt recovers what encrypt protected, under the same keys and sequence number, for every data and nonzero
      type. */
  lemma DecryptUndoesEncrypt(a: Aead, salt: seq<Byte>, iv: seq<Byte>, seqno: U64, kind: Byte, data: seq<Byte>)
    requires Correct(a) && a.ivLen >= 8 && a.ivLen >= |iv| && kind != 0
    requires a.seal(Header(|data| + 1 + a.icvLen), salt + RecordIv(a.ivLen, iv, seqno), data + [kind]).Some?
    ensures var text := a.seal(Header(|data| + 1 + a.icvLen), salt + RecordIv(a.ivLen, iv, seqno), data + [kind]).value;
            && |text| >= a.icvLen
            && var plain := a.open(Header(|text|), salt + RecordIv(a.ivLen, iv, seqno), text);
               plain.Some? && Parsed(plain.value) == Some(Content(kind, data))
  {
    ContentReadBack(kind, data);
  }

  /** The additional data is the header of the record as it is sent (section 5.2 of RFC 8446). */
  lemma OuterHeader(len: U16)
    ensures Header(len) == [23, 3, 3, len / 256, len % 256]
  {
  }

  /** What was sealed opens only with the additional data and the nonce it was sealed with. */
  ghost predicate Binding(a: Aead) {
    forall aad: seq<Byte>, nonce: seq<Byte>, p: seq<Byte>, aad1: seq<Byte>, nonce1: seq<Byte> |
      a.seal(aad, nonce, p).Some? && a.open(aad1, nonce1, a.seal(aad, nonce, p).value).Some? ::
      aad1 == aad && nonce1 == nonce
  }

  /** A record is opened only as the one with its own number, whatever the IV's length: not when it is repeated or
      moved. */
  lemma RecordBound(a: Aead, salt: seq<Byte>, iv: seq<Byte>, n1: U64, n2: U64, kind: Byte, data: seq<Byte>)
    requires Binding(a) && a.ivLen >= 8 && a.ivLen >= |iv| && n1 != n2
    requires a.seal(Header(|data| + 1 + a.icvLen), salt + RecordIv(a.ivLen, iv, n1), data + [kind]).Some?
    ensures var text := a.seal(Header(|data| + 1 + a.icvLen), salt + RecordIv(a.ivLen, iv, n1), data + [kind]).value;
            a.open(Header(|text|), salt + RecordIv(a.ivLen, iv, n2), text) == None
  {
    NoncesDistinct(a.ivLen, salt, iv, n1, n2);
  }
}
