/**
 * The secret generator `randString` (main.go:128-155): rejection sampling of
 * random bytes onto a 62-symbol alphabet. The operating system's entropy
 * source is injected as the sequence of answers its successive reads give.
 */
module Secret {
  import opened Wrappers

  newtype byte = x: int | 0 <= x < 256

  /** Length of the secrets the tool mints. */
  const DefaultLen: int := 16

  /** The 62 symbols of `alphabet` (main.go:15), written as its three runs. */
  const Alphabet: string := Lower + Upper + Digits

  const Lower: string := "abcdefghijklmnopqrstuvwxyz"
  const Upper: string := "ABCDEFGHIJKLMNOPQRSTUVWXYZ"
  const Digits: string := "0123456789"

  const AlphabetLen: int := |Alphabet|

  /** The largest multiple of the alphabet size that a byte can reach: bytes from here on are rejected. */
  const MaxMultiple: int := 256 / AlphabetLen * AlphabetLen

  lemma Constants()
    ensures AlphabetLen == 62 && MaxMultiple == 248 && MaxMultiple == 4 * AlphabetLen
  {
  }

  predicate IsAlnum(c: char) {
    'a' <= c <= 'z' || 'A' <= c <= 'Z' || '0' <= c <= '9'
  }

  /** Alphabet position `j` computed from the three character ranges it lists. */
  function SymbolAt(j: int): char
    requires 0 <= j < 62
  {
    if j < 26 then ('a' as int + j) as char
    else if j < 52 then ('A' as int + (j - 26)) as char
    else ('0' as int + (j - 52)) as char
  }

  /** `count` consecutive ASCII characters starting at `first`. */
  function Range(first: char, count: nat): (r: string)
    requires first as int + count <= 0x80
  {
    seq(count, i requires 0 <= i < count => (first as int + i) as char)
  }

  lemma LowerRange() ensures Lower == Range('a', 26) {}

  lemma UpperRange() ensures Upper == Range('A', 26) {}

  lemma DigitsRange() ensures Digits == Range('0', 10) {}

  lemma AlphabetLayout()
    ensures |Alphabet| == 62
    ensures forall j :: 0 <= j < 62 ==> Alphabet[j] == SymbolAt(j)
  {
    LowerRange();
    UpperRange();
    DigitsRange();
  }

  /** The alphabet is `[a-zA-Z0-9]`: 62 distinct alphanumeric symbols. */
  lemma AlphabetIsAlnum()
    ensures forall j :: 0 <= j < |Alphabet| ==> IsAlnum(Alphabet[j])
    ensures forall i, j :: 0 <= i < j < |Alphabet| ==> Alphabet[i] != Alphabet[j]
  {
    AlphabetLayout();
  }

  /** One call of the entropy source: either it fills the buffer, or it fails. */
  datatype Draw = Filled(bytes: seq<byte>) | ReadError

  datatype GenError = InvalidLength | EntropyFailure

  // ------------------------------------------------------- rejection sampling

  predicate Accepted(b: byte) {
    (b as int) < MaxMultiple
  }

  /** Alphabet index a byte maps to. */
  function Index(b: byte): (j: int)
    ensures 0 <= j < AlphabetLen
  {
    b as int % AlphabetLen
  }

  /** The bytes that survive rejection, in draw order. */
  function Accept(bs: seq<byte>): (r: seq<byte>)
    ensures |r| <= |bs|
    ensures forall i :: 0 <= i < |r| ==> Accepted(r[i])
  {
    if |bs| == 0 then []
    else (if Accepted(bs[0]) then [bs[0]] else []) + Accept(bs[1..])
  }

  lemma {:induction false} AcceptAppend(a: seq<byte>, b: seq<byte>)
    ensures Accept(a + b) == Accept(a) + Accept(b)
  {
    if |a| == 0 {
      assert a + b == b;
    } else {
      assert (a + b)[1..] == a[1..] + b;
      AcceptAppend(a[1..], b);
    }
  }

  /** A rejected byte contributes nothing, wherever it occurs; an accepted one contributes itself. */
  lemma AcceptOne(a: seq<byte>, b: byte, c: seq<byte>)
    ensures Accept(a + [b] + c) == Accept(a) + (if Accepted(b) then [b] else []) + Accept(c)
  {
    AcceptAppend(a + [b], c);
    AcceptAppend(a, [b]);
    assert [b][1..] == [];
  }

  /** The alphabet symbols of a sequence of bytes, position by position. */
  function Encode(bs: seq<byte>): (r: string)
    ensures |r| == |bs|
    ensures forall i :: 0 <= i < |bs| ==> r[i] == Alphabet[Index(bs[i])]
  {
    if |bs| == 0 then "" else [Alphabet[Index(bs[0])]] + Encode(bs[1..])
  }

  lemma EncodeSnoc(s: seq<byte>, b: byte)
    ensures Encode(s + [b]) == Encode(s) + [Alphabet[Index(b)]]
  {
  }

  /** The first `n` elements, or all of them when there are fewer. */
  function Take(s: seq<byte>, n: nat): (r: seq<byte>)
    ensures r <= s && |r| == if |s| <= n then |s| else n
  {
    if |s| <= n then s else s[..n]
  }

  // ------------------------------------------------------ the entropy source

  /** The bytes the source delivers before its first failing read. */
  function BeforeError(draws: seq<Draw>): seq<byte>
  {
    if |draws| == 0 then []
    else if draws[0].ReadError? then []
    else draws[0].bytes + BeforeError(draws[1..])
  }

  predicate AllFilled(draws: seq<Draw>) {
    forall i :: 0 <= i < |draws| ==> draws[i].Filled?
  }

  /** The source honours `crypto/rand.Read`: every successful read fills the whole buffer. */
  predicate FillsBuffers(draws: seq<Draw>, size: int) {
    forall i :: 0 <= i < |draws| && draws[i].Filled? ==> |draws[i].bytes| == size
  }

  /** The source does not run dry: it fails at some read, or it delivers `n` accepted bytes first. */
  predicate Supplies(draws: seq<Draw>, n: int) {
    !AllFilled(draws) || |Accept(BeforeError(draws))| >= n
  }

  lemma {:induction false} BeforeErrorSplit(draws: seq<Draw>, k: nat)
    requires k <= |draws| && AllFilled(draws[..k])
    ensures BeforeError(draws) == BeforeError(draws[..k]) + BeforeError(draws[k..])
  {
    if k > 0 {
      assert draws[1..][..k - 1] == draws[..k][1..];
      BeforeErrorSplit(draws[1..], k - 1);
      assert draws[1..][k - 1..] == draws[k..];
    } else {
      assert draws[k..] == draws;
    }
  }

  lemma BeforeErrorStep(draws: seq<Draw>, k: nat)
    requires k < |draws| && AllFilled(draws[..k + 1])
    ensures BeforeError(draws[..k + 1]) == BeforeError(draws[..k]) + draws[k].bytes
  {
    var d := draws[..k + 1];
    assert AllFilled(d[..k]);
    BeforeErrorSplit(d, k);
    assert d[..k] == draws[..k];
    assert d[k..] == [draws[k]];
  }

  /** After a successful read, the buffer's bytes join what the source has delivered. */
  lemma ReadStep(draws: seq<Draw>, k: nat)
    requires k < |draws| && AllFilled(draws[..k]) && draws[k].Filled?
    ensures AllFilled(draws[..k + 1])
    ensures BeforeError(draws[..k + 1]) == BeforeError(draws[..k]) + draws[k].bytes
  {
    assert AllFilled(draws[..k + 1]);
    BeforeErrorStep(draws, k);
  }

  /** A source that never fails, read to its end, has delivered everything. */
  lemma ExhaustedOnlyWhenSupplied(draws: seq<Draw>, k: nat, n: int)
    requires k <= |draws| && AllFilled(draws[..k]) && Supplies(draws, n)
    ensures k == |draws| ==> |Accept(BeforeError(draws[..k]))| >= n
  {
    if k == |draws| {
      assert draws[..k] == draws;
    }
  }

  /** Consuming one more byte of the buffer. */
  lemma AcceptStep(before: seq<byte>, buf: seq<byte>, j: nat)
    requires j < |buf|
    ensures Accept(before + buf[..j + 1])
         == Accept(before + buf[..j]) + (if Accepted(buf[j]) then [buf[j]] else [])
  {
    assert before + buf[..j + 1] == before + buf[..j] + [buf[j]] + [];
    AcceptOne(before + buf[..j], buf[j], []);
  }

  /** The loop's record after `j` bytes of the buffer, when it has stopped or the buffer is spent. */
  lemma TakeWhenFull(before: seq<byte>, buf: seq<byte>, j: nat, n: nat)
    requires j <= |buf|
    requires |Accept(before + buf[..j])| == n || (j == |buf| && |Accept(before + buf[..j])| <= n)
    ensures Take(Accept(before + buf), n) == Accept(before + buf[..j])
  {
    assert before + buf == before + buf[..j] + buf[j..];
    AcceptAppend(before + buf[..j], buf[j..]);
    assert j == |buf| ==> buf[j..] == [];
  }

  /** Once the reads so far have delivered `n` accepted bytes, later reads do not change the first `n`. */
  lemma AcceptedPrefix(draws: seq<Draw>, k: nat, n: nat)
    requires k <= |draws| && AllFilled(draws[..k])
    requires |Accept(BeforeError(draws[..k]))| >= n
    ensures |Accept(BeforeError(draws))| >= n
    ensures Take(Accept(BeforeError(draws[..k])), n) == Accept(BeforeError(draws))[..n]
  {
    BeforeErrorSplit(draws, k);
    AcceptAppend(BeforeError(draws[..k]), BeforeError(draws[k..]));
  }

  /** A failing read ends what the source delivers. */
  lemma FailedAt(draws: seq<Draw>, k: nat)
    requires k < |draws| && AllFilled(draws[..k]) && draws[k].ReadError?
    ensures BeforeError(draws) == BeforeError(draws[..k])
  {
    BeforeErrorSplit(draws, k);
    assert BeforeError(draws[k..]) == [];
  }

  // ---------------------------------------------------------- specification

  /**
   * What `randString(n)` returns: an error for a non-positive length, an error
   * when the source fails before yielding `n` accepted bytes, and otherwise the
   * symbols of the first `n` accepted bytes.
   */
  function Generate(n: int, draws: seq<Draw>): Result<string, GenError>
  {
    if n <= 0 then Failure(InvalidLength)
    else
      var acc := Accept(BeforeError(draws));
      if |acc| >= n then Success(Encode(acc[..n])) else Failure(EntropyFailure)
  }

  /** A successful result has exactly `n` characters, all of them alphabet symbols. */
  lemma GenerateShape(n: int, draws: seq<Draw>)
    ensures Generate(n, draws).Success? ==>
      |Generate(n, draws).value| == n && forall c :: c in Generate(n, draws).value ==> c in Alphabet
  {
  }

  /** The i-th character is the symbol of the i-th accepted byte in draw order. */
  lemma GenerateMapping(n: int, draws: seq<Draw>, i: int)
    requires Generate(n, draws).Success? && 0 <= i < n
    ensures i < |Accept(BeforeError(draws))|
    ensures Generate(n, draws).value[i] == Alphabet[Accept(BeforeError(draws))[i] as int % 62]
  {
  }

  /** Generation fails exactly for a non-positive length or a source that fails too early. */
  lemma GenerateErrors(n: int, draws: seq<Draw>)
    ensures Generate(n, draws) == Failure(InvalidLength) <==> n <= 0
    ensures Generate(n, draws) == Failure(EntropyFailure) <==> n > 0 && |Accept(BeforeError(draws))| < n
  {
  }

  /** On a source that does not run dry, an entropy failure always comes from a failing read. */
  lemma EntropyFailureIsReadError(n: int, draws: seq<Draw>)
    requires Supplies(draws, n)
    ensures Generate(n, draws) == Failure(EntropyFailure) <==> n > 0 && !AllFilled(draws) && |Accept(BeforeError(draws))| < n
  {
  }

  /** The bytes delivered by two runs of reads: the second run counts only when the first never failed. */
  lemma {:induction false} BeforeErrorAppend(a: seq<Draw>, b: seq<Draw>)
    ensures BeforeError(a + b) == if AllFilled(a) then BeforeError(a) + BeforeError(b) else BeforeError(a)
  {
    if |a| == 0 {
      assert a + b == b;
    } else {
      assert (a + b)[0] == a[0];
      assert (a + b)[1..] == a[1..] + b;
      BeforeErrorAppend(a[1..], b);
      assert AllFilled(a) <==> a[0].Filled? && AllFilled(a[1..]) by {
        if a[0].Filled? && AllFilled(a[1..]) {
          forall i | 0 < i < |a| ensures a[i].Filled? {
            assert a[i] == a[1..][i - 1];
          }
        }
        if AllFilled(a) {
          forall i | 0 <= i < |a| - 1 ensures a[1..][i].Filled? {
            assert a[1..][i] == a[i + 1];
          }
        }
      }
    }
  }

  /** Once the reads have produced a secret, further reads of the source do not change it. */
  lemma GenerateIgnoresLaterReads(n: int, draws: seq<Draw>, more: seq<Draw>)
    requires Generate(n, draws).Success?
    ensures Generate(n, draws + more) == Generate(n, draws)
  {
    BeforeErrorAppend(draws, more);
    if AllFilled(draws) {
      AcceptAppend(BeforeError(draws), BeforeError(more));
      var acc := Accept(BeforeError(draws));
      assert (acc + Accept(BeforeError(more)))[..n] == acc[..n];
    }
  }

  // ------------------------------------------------------------- the method

  /**
   * One pass of the inner loop of `randString` over a freshly read buffer:
   * append the symbol of every accepted byte, and stop as soon as `n` symbols
   * are collected. `seen` stands for the bytes read before this buffer.
   */
  method Absorb(out: string, buf: seq<byte>, n: int, ghost seen: seq<byte>) returns (res: string)
    requires |out| < n && out == Encode(Accept(seen))
    ensures |res| <= n
    ensures res == Encode(Take(Accept(seen + buf), n))
  {
    res := out;
    var j := 0;
    assert seen + buf[..j] == seen;
    while j < |buf|
      invariant 0 <= j <= |buf|
      invariant |res| < n
      invariant res == Encode(Accept(seen + buf[..j]))
    {
      var b := buf[j];
      AcceptStep(seen, buf, j);
      if b as int < MaxMultiple {
        EncodeSnoc(Accept(seen + buf[..j]), b);
        res := res + [Alphabet[b as int % AlphabetLen]];
        if |res| == n {
          TakeWhenFull(seen, buf, j + 1, n);
          return;
        }
      }
      j := j + 1;
    }
    TakeWhenFull(seen, buf, j, n);
  }

  /** `randString(n)`, reading the entropy source in buffers of `2n` bytes. */
  method RandString(n: int, draws: seq<Draw>) returns (r: Result<string, GenError>)
    requires n > 0 ==> FillsBuffers(draws, 2 * n)
    requires Supplies(draws, n)
    ensures r == Generate(n, draws)
    ensures r.Success? ==> |r.value| == n && forall i :: 0 <= i < n ==>
      i < |Accept(BeforeError(draws))| && r.value[i] == Alphabet[Index(Accept(BeforeError(draws))[i])]
    ensures r == Failure(EntropyFailure) ==> exists k :: 0 <= k < |draws| && draws[k].ReadError?
  {
    if n <= 0 {
      return Failure(InvalidLength);
    }
    var out: string := [];
    var k := 0;
    while |out| < n
      invariant 0 <= k <= |draws| && AllFilled(draws[..k])
      invariant |out| <= n
      invariant out == Encode(Take(Accept(BeforeError(draws[..k])), n))
      decreases |draws| - k
    {
      ExhaustedOnlyWhenSupplied(draws, k, n);
      if draws[k].ReadError? {
        FailedAt(draws, k);
        return Failure(EntropyFailure);
      }
      out := Absorb(out, draws[k].bytes, n, BeforeError(draws[..k]));
      ReadStep(draws, k);
      k := k + 1;
    }
    AcceptedPrefix(draws, k, n);
    return Success(out);
  }

  // ------------------------------------------------------------ no modulo bias

  /** The accepted bytes that map to alphabet index `j`. */
  ghost function Preimages(j: int): set<byte>
  {
    set b: byte | Accepted(b) && Index(b) == j
  }

  /** The bytes that would map to alphabet index `j` if nothing were rejected. */
  ghost function RawPreimages(j: int): set<byte>
  {
    set b: byte | Index(b) == j
  }

  /** Every alphabet index has exactly four accepted preimages, so accepted bytes are spread evenly. */
  lemma NoModuloBias(j: int)
    requires 0 <= j < AlphabetLen
    ensures Preimages(j) == {j as byte, (j + 62) as byte, (j + 124) as byte, (j + 186) as byte}
    ensures |Preimages(j)| == 4
  {
    forall b | b in Preimages(j) ensures b in {j as byte, (j + 62) as byte, (j + 124) as byte, (j + 186) as byte} {
      assert b as int == b as int / 62 * 62 + j;
      assert 0 <= b as int / 62 < 4;
    }
  }

  /** Without rejection the first eight indices (256 mod 62 = 8) would get a fifth preimage. */
  lemma BiasWithoutRejection(j: int)
    requires 0 <= j < AlphabetLen
    ensures |RawPreimages(j)| == if j < 8 then 5 else 4
  {
    var four := {j as byte, (j + 62) as byte, (j + 124) as byte, (j + 186) as byte};
    forall b | b in RawPreimages(j) ensures b in four + (if j < 8 then {(j + 248) as byte} else {}) {
      assert b as int == b as int / 62 * 62 + j;
      assert 0 <= b as int / 62 < 5;
    }
    if j < 8 {
      assert RawPreimages(j) == four + {(j + 248) as byte};
    } else {
      assert RawPreimages(j) == four;
    }
  }
}
