/**
 The Fletcher-64 block checksum of ApfsDriverLoader/ApfsDriverLoader.c. The loop
 adds up in 64 bits and reduces modulo 2^32 - 1 only at the end.
 */
module Fletcher {
  import opened Words

  const MOD := 0xFFFF_FFFF

  /** The longest body, in words, for which the 64-bit sums cannot wrap around. */
  const MAX_WORDS := 92_680

  function Wrap64(x: nat): (r: u64)
    ensures x < 0x1_0000_0000_0000_0000 ==> r == x
  {
    x % 0x1_0000_0000_0000_0000
  }

  // ----- The sums without any bound -----

  function Sum1(d: seq<u32>): nat {
    if d == [] then 0 else Sum1(d[..|d| - 1]) + d[|d| - 1]
  }

  function Sum2(d: seq<u32>): nat {
    if d == [] then 0 else Sum2(d[..|d| - 1]) + Sum1(d)
  }

  lemma {:induction false} SumsBounded(d: seq<u32>)
    ensures Sum1(d) <= |d| * MOD
    ensures 2 * Sum2(d) <= |d| * (|d| + 1) * MOD
  {
    if d != [] {
      var n := |d|;
      SumsBounded(d[..n - 1]);
      assert n * (n + 1) * MOD == (n - 1) * n * MOD + 2 * (n * MOD);
    }
  }

  /** The most that the loop and the final sum can reach. */
  lemma FinalSumBounded(d: seq<u32>)
    requires |d| <= MAX_WORDS
    ensures Sum1(d) + Sum2(d) < 0x1_0000_0000_0000_0000
  {
    var n := |d|;
    SumsBounded(d);
    assert 2 * (Sum1(d) + Sum2(d)) <= 2 * (n * MOD) + n * (n + 1) * MOD == n * (n + 3) * MOD;
    assert n * (n + 3) <= MAX_WORDS * (MAX_WORDS + 3);
  }

  function Ones(n: nat): (d: seq<u32>)
    ensures |d| == n
  {
    seq(n, i => MOD)
  }

  lemma {:induction false} OnesSums(n: nat)
    ensures Sum1(Ones(n)) == n * MOD && 2 * Sum2(Ones(n)) == n * (n + 1) * MOD
  {
    if n > 0 {
      OnesSums(n - 1);
      assert Ones(n)[..n - 1] == Ones(n - 1);
      assert n * (n + 1) * MOD == (n - 1) * n * MOD + 2 * (n * MOD);
    }
  }

  /** The bound is exact: all bodies of n words stay below 2^64 if and only if n is at most MAX_WORDS. */
  lemma NoWrapIff(n: nat)
    ensures n <= MAX_WORDS <==> forall d: seq<u32> :: |d| == n ==> Sum1(d) + Sum2(d) < 0x1_0000_0000_0000_0000
  {
    if n <= MAX_WORDS {
      forall d: seq<u32> | |d| == n
        ensures Sum1(d) + Sum2(d) < 0x1_0000_0000_0000_0000
      {
        FinalSumBounded(d);
      }
    } else {
      OnesSums(n);
      var d := Ones(n);
      assert 2 * (Sum1(d) + Sum2(d)) == n * (n + 3) * MOD;
      assert n * (n + 3) >= (MAX_WORDS + 1) * (MAX_WORDS + 4);
    }
  }

  // ----- Arithmetic modulo 2^32 - 1 -----

  function Mod(x: int): (r: nat)
    ensures r < MOD
  {
    x % 0xFFFF_FFFF
  }

  lemma ModUnique(x: int, q: int, r: int)
    requires x == 0xFFFF_FFFF * q + r && 0 <= r < 0xFFFF_FFFF
    ensures Mod(x) == r
  {
  }

  lemma ModAdd(x: int, y: int)
    ensures Mod(Mod(x) + y) == Mod(x + y)
  {
    var z := Mod(x) + y;
    ModUnique(x + y, x / 0xFFFF_FFFF + z / 0xFFFF_FFFF, Mod(z));
  }

  /** Equal remainders are a matter of the difference. */
  lemma ModDiff(x: int, y: int)
    ensures Mod(x) == Mod(y) <==> Mod(x - y) == 0
  {
    if Mod(x) == Mod(y) {
      ModUnique(x - y, x / 0xFFFF_FFFF - y / 0xFFFF_FFFF, 0);
    } else if Mod(x - y) == 0 {
      ModUnique(x, y / 0xFFFF_FFFF + (x - y) / 0xFFFF_FFFF, Mod(y));
    }
  }

  lemma ModMultiple(k: int, x: int)
    requires Mod(x) == 0
    ensures Mod(k * x) == 0
  {
    var q := x / 0xFFFF_FFFF;
    assert k * x == 0xFFFF_FFFF * (k * q);
    ModUnique(k * x, k * q, 0);
  }

  /** Adding the same on both sides changes nothing. */
  lemma ModCancel(x: int, y: int, z: int)
    ensures Mod(x + z) == Mod(y + z) <==> Mod(x) == Mod(y)
  {
    ModDiff(x + z, y + z);
    ModDiff(x, y);
  }

  /** Words are equal modulo 2^32 - 1 when they are equal, or one is 0 and the other all ones. */
  lemma SameWord(v: u32, w: u32)
    ensures Mod(v) == Mod(w) <==> v == w || (v == 0 && w == MOD) || (v == MOD && w == 0)
  {
  }

  // ----- The simple form -----

  /** The loop as its comment has it: both sums reduced in every step. */
  function PerStep(d: seq<u32>): (r: (nat, nat))
    ensures r.0 < MOD && r.1 < MOD
  {
    if d == [] then (0, 0)
    else
      var (a, b) := PerStep(d[..|d| - 1]);
      var a' := Mod(a + d[|d| - 1]);
      (a', Mod(b + a'))
  }

  /** Reducing at the end gives what reducing in every step gives. */
  lemma {:induction false} DeferredModulo(d: seq<u32>)
    ensures PerStep(d) == (Mod(Sum1(d)), Mod(Sum2(d)))
  {
    if d != [] {
      var front := d[..|d| - 1];
      DeferredModulo(front);
      ModAdd(Sum1(front), d[|d| - 1]);
      ModAdd(Sum2(front), Mod(Sum1(d)));
      ModAdd(Sum1(d), Sum2(front));
    }
  }

  /** The two check words for running sums a and b. */
  function CheckWords(a: nat, b: nat): (c: (u32, u32))
    ensures 1 <= c.0 <= MOD && 1 <= c.1 <= MOD
  {
    var c1 := MOD - Mod(a + b);
    (c1, MOD - Mod(a + c1))
  }

  /** The check words are the only words from 1 to 2^32 - 1 that bring both sums to zero. */
  lemma CheckWordsUnique(a: nat, b: nat, x: u32, y: u32)
    ensures (x, y) == CheckWords(a, b) <==> x != 0 && y != 0 && Mod(a + b + x) == 0 && Mod(a + x + y) == 0
  {
    var c1 := MOD - Mod(a + b);
    Complement(a + b, x);
    Complement(a + x, y);
  }

  lemma Complement(s: nat, x: u32)
    ensures x == MOD - Mod(s) <==> x != 0 && Mod(s + x) == 0
  {
    if x == MOD - Mod(s) {
      ModUnique(s + x, s / 0xFFFF_FFFF + 1, 0);
    } else if x != 0 && Mod(s + x) == 0 {
      ModAdd(s, x);
    }
  }

  /** (Check2 << 32) | Check1 */
  function Pack(c: (u32, u32)): (r: u64) {
    0x1_0000_0000 * c.1 + c.0
  }

  lemma PackInjective(c: (u32, u32), e: (u32, u32))
    ensures Pack(c) == Pack(e) <==> c == e
  {
  }

  /** The checksum, by the simple form. */
  function Checksum(d: seq<u32>): u64 {
    Pack(CheckWords(PerStep(d).0, PerStep(d).1))
  }

  lemma SameCheckWords(a: nat, b: nat)
    ensures CheckWords(Mod(a), Mod(b)) == CheckWords(a, b)
  {
    ModAdd(a, b);
    ModAdd(b, Mod(a));
    ModAdd(a, MOD - Mod(a + b));
  }

  lemma WrapAdd(x: nat, y: nat)
    ensures Wrap64(Wrap64(x) + y) == Wrap64(x + y) && Wrap64(x + Wrap64(y)) == Wrap64(x + y)
  {
  }

  /**
   ApfsBlockChecksumCalculate. For every body the check words are those of the sums
   modulo 2^64; up to the bound, where nothing wraps around, this is the checksum.
   */
  method ChecksumCalculate(data: seq<u32>) returns (checksum: u64)
    ensures checksum == Finish(Wrap64(Sum1(data)), Wrap64(Sum2(data)))
    ensures |data| <= MAX_WORDS ==> checksum == Checksum(data)
    // up to the bound the low half and the high half are the words from 1 on that bring both sums to zero
    ensures |data| <= 92_680 ==>
              var low, high := checksum % 0x1_0000_0000, checksum / 0x1_0000_0000;
              && 1 <= low && 1 <= high
              && (Sum1(data) + Sum2(data) + low) % 0xFFFF_FFFF == 0
              && (Sum1(data) + low + high) % 0xFFFF_FFFF == 0
  {
    var sum1: u64, sum2: u64 := 0, 0;
    for index := 0 to |data|
      invariant sum1 == Wrap64(Sum1(data[..index])) && sum2 == Wrap64(Sum2(data[..index]))
    {
      ghost var next := data[..index + 1];
      assert next[..index] == data[..index] && next[index] == data[index];
      WrapAdd(Sum1(data[..index]), data[index]);
      sum1 := Wrap64(sum1 + data[index]);
      WrapAdd(Sum2(data[..index]), sum1);
      WrapAdd(Sum2(data[..index]), Sum1(next));
      sum2 := Wrap64(sum2 + sum1);
    }
    assert data[..|data|] == data;
    if |data| <= MAX_WORDS {
      FinalWords(data);
      HalvesCancel(data);
    }
    checksum := Finish(sum1, sum2);
  }

  /** The check words from the 64-bit sums, packed. */
  function Finish(sum1: u64, sum2: u64): u64 {
    var check1 := MOD - Mod(Wrap64(sum1 + sum2));
    var check2 := MOD - Mod(Wrap64(sum1 + check1));
    Pack((check1, check2))
  }

  /** After the loop nothing wraps around either, and the check words are those of the simple form. */
  lemma FinalWords(d: seq<u32>)
    requires |d| <= MAX_WORDS
    ensures Sum1(d) + Sum2(d) < 0x1_0000_0000_0000_0000 && Finish(Sum1(d), Sum2(d)) == Checksum(d)
  {
    hide Sum1, Sum2, PerStep;
    FinalSumBounded(d);
    SumsBounded(d);
    assert |d| * MOD <= MAX_WORDS * MOD;
    DeferredModulo(d);
    SameCheckWords(Sum1(d), Sum2(d));
  }

  lemma HalvesCancel(d: seq<u32>)
    ensures var low, high := Checksum(d) % 0x1_0000_0000, Checksum(d) / 0x1_0000_0000;
            && 1 <= low && 1 <= high
            && (Sum1(d) + Sum2(d) + low) % 0xFFFF_FFFF == 0
            && (Sum1(d) + low + high) % 0xFFFF_FFFF == 0
  {
    hide Sum1, Sum2, PerStep, CheckWords;
    DeferredModulo(d);
    SameCheckWords(Sum1(d), Sum2(d));
    var (x, y) := CheckWords(Sum1(d), Sum2(d));
    CheckWordsUnique(Sum1(d), Sum2(d), x, y);
    assert Checksum(d) == Pack((x, y));
    Halves(x, y);
  }

  lemma Halves(x: u32, y: u32)
    ensures Pack((x, y)) % 0x1_0000_0000 == x && Pack((x, y)) / 0x1_0000_0000 == y
  {
  }

  // ----- What a match means -----

  lemma SumsAppend(d: seq<u32>, x: u32, y: u32)
    ensures Sum1(d + [x, y]) == Sum1(d) + x + y
    ensures Sum2(d + [x, y]) == Sum2(d) + 2 * Sum1(d) + 2 * x + y
  {
    var e := d + [x];
    assert (d + [x, y])[..|d| + 1] == e && e[..|d|] == d;
  }

  /** Stored words match if and only if they are not zero and bring both running sums to zero. */
  lemma MatchIff(d: seq<u32>, x: u32, y: u32)
    ensures Pack((x, y)) == Checksum(d) <==> x != 0 && y != 0 && PerStep(d + [x, y]) == (0, 0)
  {
    hide Sum1, Sum2, PerStep;
    var s1, s2 := Sum1(d), Sum2(d);
    DeferredModulo(d);
    SameCheckWords(s1, s2);
    PackInjective((x, y), CheckWords(s1, s2));
    CheckWordsUnique(s1, s2, x, y);
    DeferredModulo(d + [x, y]);
    SumsAppend(d, x, y);
    // s2 + 2 s1 + 2 x + y is (s1 + s2 + x) + (s1 + x + y)
    ModAdd(s1 + x + y, s1 + s2 + x);
  }

  /** Appending the check words drives both running sums to zero. */
  lemma CheckWordsCancel(d: seq<u32>)
    ensures var c := CheckWords(PerStep(d).0, PerStep(d).1); PerStep(d + [c.0, c.1]) == (0, 0)
  {
    var c := CheckWords(PerStep(d).0, PerStep(d).1);
    MatchIff(d, c.0, c.1);
  }

  datatype Answer = Match | Mismatch | PastEnd

  /** The words behind the stored checksum that a block of this size has; the subtraction wraps around below 8 bytes. */
  function BodyWords(dataSize: u64): (n: nat)
    ensures dataSize >= 8 ==> n == (dataSize - 8) / 4
    ensures dataSize < 8 ==> n == (0xFFFF_FFFF_FFFF_FFF8 + dataSize) / 4
  {
    (if dataSize >= 8 then dataSize - 8 else dataSize + (0x1_0000_0000_0000_0000 - 8)) / 4
  }

  /**
   ApfsBlockChecksumVerify: data are the words that can be read from the block's
   address on. The first two are the stored checksum, low half first. A size below
   that of the checksum makes the source read on far past any memory.
   */
  method ChecksumVerify(data: seq<u32>, dataSize: u64) returns (r: Answer)
    ensures r.PastEnd? <==> |data| < 2 + BodyWords(dataSize)
    ensures !r.PastEnd? ==>
              var body := data[2..2 + BodyWords(dataSize)];
              && (r.Match? <==> Pack((data[0], data[1])) == Finish(Wrap64(Sum1(body)), Wrap64(Sum2(body))))
              && (|body| <= MAX_WORDS ==>
                    (r.Match? <==> data[0] != 0 && data[1] != 0 && PerStep(body + [data[0], data[1]]) == (0, 0)))
    ensures dataSize < 8 && |data| < 0x4000_0000_0000_0000 ==> r.PastEnd?
  {
    var words := BodyWords(dataSize);
    if |data| < 2 + words {
      return PastEnd;
    }
    var body := data[2..2 + words];
    var checksum := ChecksumCalculate(body);
    MatchIff(body, data[0], data[1]);
    return if checksum == Pack((data[0], data[1])) then Match else Mismatch;
  }

  // ----- Detection of changes -----

  lemma Opposite(k: int, x: int)
    ensures k * x + (k - 1) * -x == x
  {
  }

  lemma OnceMore(k: int, x: int)
    ensures (k + 1) * x == k * x + x
  {
  }

  lemma {:induction false} SumsUpdate(d: seq<u32>, i: nat, w: u32)
    requires i < |d|
    ensures Sum1(d[i := w]) == Sum1(d) + (w - d[i])
    ensures Sum2(d[i := w]) == Sum2(d) + (|d| - i) * (w - d[i])
  {
    var n, e := |d|, d[i := w];
    if i == n - 1 {
      assert e[..n - 1] == d[..n - 1];
    } else {
      SumsUpdate(d[..n - 1], i, w);
      assert e[..n - 1] == d[..n - 1][i := w];
      OnceMore(n - 1 - i, w - d[i]);
    }
  }

  /** Reduced sums can be read back from their check words. */
  lemma CheckWordsInjective(a: nat, b: nat, a': nat, b': nat)
    requires a < MOD && b < MOD && a' < MOD && b' < MOD && CheckWords(a, b) == CheckWords(a', b')
    ensures a == a' && b == b'
  {
    var x: int, y: int := CheckWords(a, b).0, CheckWords(a, b).1;
    CheckWordsUnique(a, b, x, y);
    CheckWordsUnique(a', b', x, y);
    ModCancel(a, a', x + y);
    ModUnique(a, 0, a);
    ModUnique(a', 0, a');
    ModCancel(b, b', a + x);
    ModUnique(b, 0, b);
    ModUnique(b', 0, b');
  }

  /** Checksums are equal if and only if the sums are, modulo 2^32 - 1. */
  lemma SameChecksumIff(d: seq<u32>, e: seq<u32>)
    ensures Checksum(d) == Checksum(e) <==> Mod(Sum1(d)) == Mod(Sum1(e)) && Mod(Sum2(d)) == Mod(Sum2(e))
  {
    DeferredModulo(d);
    DeferredModulo(e);
    var (a, b) := PerStep(d);
    var (a', b') := PerStep(e);
    PackInjective(CheckWords(a, b), CheckWords(a', b'));
    if CheckWords(a, b) == CheckWords(a', b') {
      CheckWordsInjective(a, b, a', b');
    }
  }

  /** Detection: changing one word goes unnoticed if and only if the word is the same modulo 2^32 - 1. */
  lemma ChangeDetectedIff(d: seq<u32>, i: nat, w: u32)
    requires i < |d|
    ensures Checksum(d[i := w]) == Checksum(d) <==> w == d[i] || (w == 0 && d[i] == MOD) || (w == MOD && d[i] == 0)
  {
    hide Sum1, Sum2, Checksum;
    SameChecksumIff(d[i := w], d);
    SumsUpdate(d, i, w);
    ModDiff(Sum1(d[i := w]), Sum1(d));
    ModDiff(w, d[i]);
    SameWord(w, d[i]);
    if Mod(w) == Mod(d[i]) {
      ModMultiple(|d| - i, w - d[i]);
      ModDiff(Sum2(d[i := w]), Sum2(d));
    }
  }

  /** Exchanging two neighbours goes unnoticed if and only if they are the same modulo 2^32 - 1. */
  lemma ExchangeDetectedIff(d: seq<u32>, i: nat)
    requires i + 1 < |d|
    ensures Checksum(d[i := d[i + 1]][i + 1 := d[i]]) == Checksum(d) <==> Mod(d[i]) == Mod(d[i + 1])
  {
    hide Sum1, Sum2, Checksum, Mod;
    var v, w, k := d[i], d[i + 1], |d| - i;
    var e := d[i := w][i + 1 := v];
    SumsUpdate(d, i, w);
    SumsUpdate(d[i := w], i + 1, v);
    Opposite(k, w as int - v);
    SameChecksumIff(e, d);
    ModDiff(Sum2(e), Sum2(d));
    ModDiff(w, v);
  }
}
