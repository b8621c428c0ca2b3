/** get_hash (src/utils/hash.c), and what holds of the two digests on whole runs. */
module Hash {
  import opened Bytes
  import opened MerkleDamgard
  import opened Words
  import Md5Impl
  import Md5Standard
  import Sha256Impl
  import Sha256Standard

  datatype HashType = SHA_256 | MD5

  function DigestOf(kind: HashType, m: seq<byte>): (r: seq<byte>)
    ensures |r| == DigestLength(kind)
  {
    match kind
    case SHA_256 => Sha256Standard.Sha256(m)
    case MD5 => Md5Standard.Md5(m)
  }

  function DigestLength(kind: HashType): nat {
    if kind == SHA_256 then 32 else 16
  }

  /** The digest of the n bytes of file from position at on, from a state with arbitrary contents. */
  method GetHash(kind: HashType, file: array<byte>, at: nat, n: nat, output: array<byte>)
    requires at + n <= file.Length && n < WORD_MOD && DigestLength(kind) <= output.Length && output != file
    modifies output
    ensures output[..] == Overwrite(old(output[..]), 0, DigestOf(kind, file[at..at + n]))
  {
    ghost var m := file[at..at + n];
    assert [] + m == m;
    if kind == SHA_256 {
      var s := new Sha256Impl.Sha256State();
      s.Init();
      s.Update(file, at, n, []);
      s.Sum(output, m);
    } else {
      var s := new Md5Impl.Md5State();
      s.Init();
      s.Update(file, at, n, []);
      s.Sum(output, m);
    }
  }

  function Concat(chunks: seq<seq<byte>>): seq<byte> {
    if chunks == [] then [] else Concat(chunks[..|chunks| - 1]) + chunks[|chunks| - 1]
  }

  /** Any way of cutting a message into updates gives the digest of the message. */
  method Sha256OfChunks(chunks: seq<seq<byte>>) returns (md: seq<byte>)
    requires forall c :: c in chunks ==> |c| < WORD_MOD
    ensures md == Sha256Standard.Sha256(Concat(chunks))
  {
    hide Sha256Impl.Sha256State.Absorbed, Sha256Standard.Sha256;
    var s := new Sha256Impl.Sha256State();
    s.Init();
    for i := 0 to |chunks|
      invariant fresh(s) && fresh(s.h) && fresh(s.buf) && s.Absorbed(Concat(chunks[..i]))
    {
      var n := |chunks[i]|;
      var a := new byte[n](k requires 0 <= k < n => chunks[i][k]);
      s.Update(a, 0, n, Concat(chunks[..i]));
      assert a[0..n] == chunks[i] && chunks[..i + 1][..i] == chunks[..i];
    }
    assert chunks[..|chunks|] == chunks;
    var output := new byte[32];
    s.Sum(output, Concat(chunks));
    md := output[..];
  }

  method Md5OfChunks(chunks: seq<seq<byte>>) returns (md: seq<byte>)
    requires forall c :: c in chunks ==> |c| < WORD_MOD
    ensures md == Md5Standard.Md5(Concat(chunks))
  {
    hide Md5Impl.Md5State.Absorbed, Md5Standard.Md5;
    var s := new Md5Impl.Md5State();
    s.Init();
    for i := 0 to |chunks|
      invariant fresh(s) && fresh(s.h) && fresh(s.buf) && s.Absorbed(Concat(chunks[..i]))
    {
      var n := |chunks[i]|;
      var a := new byte[n](k requires 0 <= k < n => chunks[i][k]);
      s.Update(a, 0, n, Concat(chunks[..i]));
      assert a[0..n] == chunks[i] && chunks[..i + 1][..i] == chunks[..i];
    }
    assert chunks[..|chunks|] == chunks;
    var output := new byte[16];
    s.Sum(output, Concat(chunks));
    md := output[..];
  }

  function LengthField(kind: HashType, n: nat): (r: seq<byte>)
    ensures |r| == 8
  {
    if kind == SHA_256 then Sha256Standard.LengthField(n) else Md5Standard.LengthField(n)
  }

  function Padded(kind: HashType, m: seq<byte>): seq<byte> {
    Pad(m, LengthField(kind, |m|))
  }

  lemma LengthFieldDetermines(kind: HashType, n: nat, n': nat)
    requires LengthField(kind, n) == LengthField(kind, n')
    ensures Counter(8 * n) == Counter(8 * n')
  {
    Pow256Of8();
    if kind == SHA_256 {
      BeBytesInjective(Counter(8 * n), Counter(8 * n'), 8);
    } else {
      LeBytesInjective(Counter(8 * n), Counter(8 * n'), 8);
    }
  }

  lemma Pow256Of8()
    ensures Pow256(8) == U64_MOD
  {
    assert Pow256(4) == 0x1_0000_0000;
  }

  lemma NearLengths(n: nat, n': nat)
    requires Counter(8 * n) == Counter(8 * n') && -0x2000_0000_0000_0000 < n - n' < 0x2000_0000_0000_0000
    ensures n == n'
  {
    var q, q' := 8 * n / U64_MOD, 8 * n' / U64_MOD;
    assert 8 * (n - n') == U64_MOD * (q - q');
  }

  /** Padding is injective on all messages, even when the length field has wrapped. */
  lemma PaddingInjective(kind: HashType, m: seq<byte>, m': seq<byte>)
    requires Padded(kind, m) == Padded(kind, m')
    ensures m == m'
  {
    var p := Padded(kind, m);
    assert p[|p| - 8..] == LengthField(kind, |m|) == LengthField(kind, |m'|);
    LengthFieldDetermines(kind, |m|, |m'|);
    NearLengths(|m|, |m'|);
    assert p[..|m|] == m && p[..|m|] == m';
  }

  /** Below 2^61 bytes no padded message even ends in another one. */
  lemma PaddingSuffixFree(kind: HashType, m: seq<byte>, m': seq<byte>)
    requires |m| < 0x2000_0000_0000_0000 && |m'| < 0x2000_0000_0000_0000
    requires var p, p' := Padded(kind, m), Padded(kind, m'); |p| <= |p'| && p'[|p'| - |p|..] == p
    ensures m == m'
  {
    var l, l' := LengthField(kind, |m|), LengthField(kind, |m'|);
    if l == l' {
      LengthFieldDetermines(kind, |m|, |m'|);
      NearLengths(|m|, |m'|);
    }
    PaddingIsSuffixFree(m, l, m', l');
  }
}
