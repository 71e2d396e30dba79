/** Ones' complement arithmetic behind the Internet checksum (section 2 of RFC 1071):
    plain word sums, their canonical 16-bit residue, and the incremental form of
    section 3 of RFC 1624 as the source computes it. */
module OnesComplement {
  import opened Bytes

  /** The sum of the big-endian words of s; an odd last octet is padded with zero. */
  function SumWords(s: seq<byte>): nat {
    if |s| == 0 then 0
    else if |s| == 1 then Word(s[0], 0)
    else Word(s[0], s[1]) + SumWords(s[2..])
  }

  /** The same sum octet by octet: the octets weigh 256 and 1 in turn, beginning with 256 if the
      first one is a high octet. */
  function WeightedSum(s: seq<byte>, high: bool): nat {
    if s == [] then 0
    else (if high then 256 * s[0] as int else s[0] as int) + WeightedSum(s[1..], !high)
  }

  /** Words are big-endian, and an odd last octet counts as the high one of its word. */
  lemma {:induction false} SumWordsIsWeighted(s: seq<byte>)
    ensures SumWords(s) == WeightedSum(s, true)
    decreases |s|
  {
    if |s| >= 2 {
      SumWordsIsWeighted(s[2..]);
      assert s[1..][1..] == s[2..];
      assert WeightedSum(s[1..], false) == s[1] as int + WeightedSum(s[2..], true);
    } else if |s| == 1 {
      assert s[1..] == [];
    }
  }

  /** The 16-bit ones' complement value of an unbounded sum. Zero stays zero, and every
      other multiple of 65535 is the other zero, 0xffff. */
  function Canon(n: nat): word {
    if n <= 0xffff then n else Canon(n - 0xffff)
  }

  /** Ones' complement addition: a carry out of the top goes back in at the bottom. */
  function OnesAdd(a: word, b: word): word {
    if a + b > 0xffff then a + b - 0xffff else a + b
  }

  /** The reference checksum: ones' complement addition word by word. */
  function OnesSum(start: word, s: seq<byte>): word
    decreases |s|
  {
    if |s| == 0 then start
    else if |s| == 1 then OnesAdd(start, Word(s[0], 0))
    else OnesSum(OnesAdd(start, Word(s[0], s[1])), s[2..])
  }

  lemma {:induction false} CanonIsCongruent(n: nat) returns (k: nat)
    ensures n == Canon(n) + 0xffff * k
    ensures Canon(n) == 0 <==> n == 0
  {
    if n <= 0xffff {
      k := 0;
    } else {
      k := CanonIsCongruent(n - 0xffff);
      k := k + 1;
    }
  }

  /** Canon is the only 16-bit value congruent to n that is zero exactly when n is. */
  lemma {:induction false} CanonIsUnique(n: nat, x: word, k: int)
    requires n == x + 0xffff * k
    requires x == 0 <==> n == 0
    ensures x == Canon(n)
    decreases n
  {
    if n > 0xffff {
      CanonIsUnique(n - 0xffff, x, k - 1);
    }
  }

  /** Reducing one summand early does not change the result. */
  lemma CanonAbsorbs(a: nat, b: nat)
    ensures Canon(Canon(a) + b) == Canon(a + b)
  {
    var k := CanonIsCongruent(a);
    var j := CanonIsCongruent(Canon(a) + b);
    CanonIsUnique(a + b, Canon(Canon(a) + b), k + j);
  }

  lemma {:induction false} SumWordsBound(s: seq<byte>, k: nat)
    requires |s| <= 2 * k
    ensures SumWords(s) <= 0xffff * k
  {
    if |s| > 1 {
      SumWordsBound(s[2..], k - 1);
    }
  }

  /** The last word: a pair of octets, or one octet padded with zero. */
  lemma SumWordsTail(s: seq<byte>, i: nat, k: nat)
    requires i == 2 * k && |s| - 2 <= i < |s|
    ensures SumWords(s[i..]) == if |s| % 2 == 1 then Word(s[|s| - 1], 0) else Word(s[|s| - 2], s[|s| - 1])
    ensures |s| % 2 == 0 ==> |s| >= 2
  {
    var t := s[i..];
    assert |s| == 2 * k + |t|;
  }

  lemma SumWordsStep(s: seq<byte>, i: nat)
    requires i + 2 <= |s|
    ensures SumWords(s[i..]) == Word(s[i], s[i + 1]) + SumWords(s[i + 2..])
  {
    assert s[i..][2..] == s[i + 2..];
  }

  lemma {:induction false} SumWordsConcat(a: seq<byte>, b: seq<byte>)
    requires |a| % 2 == 0
    ensures SumWords(a + b) == SumWords(a) + SumWords(b)
  {
    if |a| == 0 {
      assert a + b == b;
    } else {
      SumWordsConcat(a[2..], b);
      assert (a + b)[2..] == a[2..] + b;
    }
  }

  lemma SumWordsConcat3(a: seq<byte>, b: seq<byte>, c: seq<byte>)
    requires |a| % 2 == 0 && |b| % 2 == 0
    ensures SumWords(a + b + c) == SumWords(a) + SumWords(b) + SumWords(c)
  {
    SumWordsConcat(a + b, c);
    SumWordsConcat(a, b);
  }

  lemma SumWordsSplice(m: seq<byte>, at: nat, n: seq<byte>)
    requires at % 2 == 0 && |n| % 2 == 0 && at + |n| <= |m|
    ensures SumWords(m[at..at + |n|]) <= SumWords(m)
    ensures SumWords(Splice(m, at, n)) == SumWords(m) - SumWords(m[at..at + |n|]) + SumWords(n)
  {
    assert m == m[..at] + m[at..at + |n|] + m[at + |n|..];
    SumWordsConcat3(m[..at], m[at..at + |n|], m[at + |n|..]);
    SumWordsConcat3(m[..at], n, m[at + |n|..]);
  }

  /** Overwriting one aligned word changes the sum by the difference of the words. */
  lemma SumWordsStore(m: seq<byte>, at: nat, x: word)
    requires at % 2 == 0 && at + 2 <= |m|
    ensures Word(m[at], m[at + 1]) <= SumWords(m)
    ensures SumWords(Splice(m, at, Encode16(x))) == SumWords(m) - Word(m[at], m[at + 1]) + x
  {
    hide SumWords, Word, Hi, Lo, Splice;
    SumWordsSplice(m, at, Encode16(x));
    assert m[at..at + 2] == [m[at], m[at + 1]];
    SumWordsOfPair(m[at], m[at + 1]);
    SumWordsOfPair(Hi(x), Lo(x));
    WordOfHiLo(x);
  }

  lemma SumWordsOfPair(h: byte, l: byte)
    ensures SumWords([h, l]) == Word(h, l)
  {
  }

  lemma OnesAddIsCanon(a: word, b: word)
    ensures OnesAdd(a, b) == Canon(a + b)
  {
    CanonIsUnique(a + b, OnesAdd(a, b), if a + b > 0xffff then 1 else 0);
  }

  lemma CanonOfWord(x: word)
    ensures Canon(x) == x
  {
  }

  /** The residue of the plain sum is the ones' complement sum of RFC 1071. */
  lemma {:induction false} CanonIsOnesSum(start: word, s: seq<byte>)
    ensures Canon(start + SumWords(s)) == OnesSum(start, s)
    decreases |s|
  {
    if |s| == 0 {
      CanonOfWord(start);
    } else if |s| == 1 {
      OnesAddIsCanon(start, Word(s[0], 0));
    } else {
      var w := Word(s[0], s[1]);
      OnesAddIsCanon(start, w);
      CanonAbsorbs(start + w, SumWords(s[2..]));
      CanonIsOnesSum(OnesAdd(start, w), s[2..]);
    }
  }

  /** One fold: the high half of a 32-bit accumulator is added to its low half. */
  function Fold(sum: nat): nat {
    sum % 0x1_0000 + sum / 0x1_0000
  }

  /** Two folds bring any 32-bit sum within 16 bits, with the canonical zero. */
  lemma TwoFoldsSuffice(sum: nat)
    requires sum < 0x1_0000_0000
    ensures Fold(Fold(sum)) == Canon(sum)
  {
    var h, l := sum / 0x1_0000, sum % 0x1_0000;
    var f := Fold(sum);
    var h2, l2 := f / 0x1_0000, f % 0x1_0000;
    assert sum == Fold(f) + 0xffff * (h + h2);
    CanonIsUnique(sum, Fold(f), h + h2);
  }

  /** Seeding the second checksum with the first one gives the checksum of the
      concatenation. This is what justifies the pseudo-header seed. */
  lemma Chaining(start: word, a: seq<byte>, b: seq<byte>)
    requires |a| % 2 == 0
    ensures Canon(Canon(start + SumWords(a)) + SumWords(b)) == Canon(start + SumWords(a + b))
  {
    SumWordsConcat(a, b);
    CanonAbsorbs(start + SumWords(a), SumWords(b));
  }

  // ----- incremental update -----

  /** Subtracting one old word, with the end-around borrow of the source. */
  function SubStep(x: word, o: word): word {
    var d := x - o;
    if d <= 0 then U16(d - 1) else d
  }

  /** The test x & 0x10000. */
  predicate Bit16(x: int) {
    (x / 0x1_0000) % 2 == 1
  }

  /** Adding one new word: bit 16 of the sum is carried around. */
  function AddStep(x: word, n: word): word {
    var d := x + n;
    if Bit16(d) then U16(d + 1) else d
  }

  function SubWords(x: word, s: seq<byte>): word
    decreases |s|
  {
    if |s| < 2 then x else SubWords(SubStep(x, Word(s[0], s[1])), s[2..])
  }

  function AddWords(x: word, s: seq<byte>): word
    decreases |s|
  {
    if |s| < 2 then x else AddWords(AddStep(x, Word(s[0], s[1])), s[2..])
  }

  /** The running value of the adjuster, which starts from the complement of the field. */
  function Running(field: word, o: seq<byte>, n: seq<byte>): word {
    AddWords(SubWords(Not16(field), o), n)
  }

  /** The checksum field after the words o were replaced by the words n. */
  function Adjusted(field: word, o: seq<byte>, n: seq<byte>): word {
    Not16(Running(field, o, n))
  }

  lemma RunningStep(x: word, s: seq<byte>, i: nat)
    requires i + 2 <= |s|
    ensures SubWords(x, s[i..]) == SubWords(SubStep(x, Word(s[i], s[i + 1])), s[i + 2..])
    ensures AddWords(x, s[i..]) == AddWords(AddStep(x, Word(s[i], s[i + 1])), s[i + 2..])
  {
    assert s[i..][2..] == s[i + 2..];
  }

  lemma RunningEnds(x: word)
    ensures SubWords(x, []) == x && AddWords(x, []) == x
  {
  }

  lemma SubStepMeaning(x: word, o: word)
    ensures SubStep(x, o) == x - o + (if x - o <= 0 then 0xffff else 0)
  {
    var d := x - o;
    if d <= 0 {
      assert d - 1 == -1 * 0x1_0000 + (d + 0xffff);
    }
  }

  lemma AddStepMeaning(x: word, n: word)
    ensures AddStep(x, n) == x + n - (if x + n > 0xffff then 0xffff else 0)
  {
    var d := x + n;
    if d > 0xffff {
      assert d / 0x1_0000 == 1;
      assert d + 1 == 1 * 0x1_0000 + (d - 0xffff);
    } else {
      assert d / 0x1_0000 == 0;
    }
  }

  /** Every bit of s inverted. */
  function Inverted(s: seq<byte>): (r: seq<byte>)
    ensures |r| == |s|
  {
    seq(|s|, i requires 0 <= i < |s| => 0xff - s[i])
  }

  lemma SubStepIsOnesAdd(x: word, h: byte, l: byte)
    ensures SubStep(x, Word(h, l)) == OnesAdd(x, Word(0xff - h, 0xff - l))
  {
    SubStepMeaning(x, Word(h, l));
    hide SubStep;
  }

  lemma {:induction false} SubWordsIsOnesSum(x: word, s: seq<byte>)
    requires |s| % 2 == 0
    ensures SubWords(x, s) == OnesSum(x, Inverted(s))
    decreases |s|
  {
    hide SubStep, OnesAdd, Word;
    if |s| > 0 {
      assert |s| >= 2;
      SubStepIsOnesAdd(x, s[0], s[1]);
      InvertedTail(s);
      SubWordsIsOnesSum(SubStep(x, Word(s[0], s[1])), s[2..]);
    }
  }

  lemma InvertedTail(s: seq<byte>)
    requires |s| >= 2
    ensures Inverted(s)[0] == 0xff - s[0] && Inverted(s)[1] == 0xff - s[1]
    ensures Inverted(s)[2..] == Inverted(s[2..])
  {
  }

  lemma {:induction false} AddWordsIsOnesSum(x: word, s: seq<byte>)
    requires |s| % 2 == 0
    ensures AddWords(x, s) == OnesSum(x, s)
    decreases |s|
  {
    if |s| > 0 {
      AddStepMeaning(x, Word(s[0], s[1]));
      AddWordsIsOnesSum(AddStep(x, Word(s[0], s[1])), s[2..]);
    }
  }

  /** For every field and all words the adjuster computes equation 3 of RFC 1624: the
      complement of the complemented field plus the inverted old words plus the new words, in
      ones' complement addition. Its borrow and carry tricks change nothing. */
  lemma AdjusterIsEquation3(field: word, o: seq<byte>, n: seq<byte>)
    requires |o| % 2 == 0 && |n| % 2 == 0
    ensures Adjusted(field, o, n) == Not16(OnesSum(OnesSum(Not16(field), Inverted(o)), n))
  {
    SubWordsIsOnesSum(Not16(field), o);
    AddWordsIsOnesSum(SubWords(Not16(field), o), n);
  }

  predicate AllOnes(s: seq<byte>) {
    forall i | 0 <= i < |s| :: s[i] == 0xff
  }

  lemma {:induction false} SubWordsMeaning(x: word, s: seq<byte>) returns (k: int)
    requires |s| % 2 == 0
    ensures SubWords(x, s) == x - SumWords(s) + 0xffff * k
    ensures SubWords(x, s) == 0 <==> x == 0 && AllOnes(s)
    decreases |s|
  {
    if |s| == 0 {
      k := 0;
    } else {
      var w := Word(s[0], s[1]);
      var y := SubStep(x, w);
      SubStepMeaning(x, w);
      var j := SubWordsMeaning(y, s[2..]);
      k := j + (if x - w <= 0 then 1 else 0);
      assert AllOnes(s) <==> s[0] == 0xff && s[1] == 0xff && AllOnes(s[2..]) by {
        assert forall i | 2 <= i < |s| :: s[i] == s[2..][i - 2];
      }
    }
  }

  lemma {:induction false} AddWordsMeaning(x: word, s: seq<byte>) returns (k: int)
    requires |s| % 2 == 0
    ensures AddWords(x, s) == x + SumWords(s) - 0xffff * k
    ensures AddWords(x, s) == 0 <==> x == 0 && SumWords(s) == 0
    decreases |s|
  {
    if |s| == 0 {
      k := 0;
    } else {
      var w := Word(s[0], s[1]);
      var y := AddStep(x, w);
      AddStepMeaning(x, w);
      var j := AddWordsMeaning(y, s[2..]);
      k := j + (if x + w > 0xffff then 1 else 0);
    }
  }

  /** The running value is congruent to the complement of the field minus the old words
      plus the new ones. It is zero in one case only: the field was 0xffff, every old
      octet 0xff and every new octet 0. */
  lemma RunningMeaning(field: word, o: seq<byte>, n: seq<byte>) returns (k: int)
    requires |o| % 2 == 0 && |n| % 2 == 0
    ensures Running(field, o, n) == 0xffff - field - SumWords(o) + SumWords(n) + 0xffff * k
    ensures Running(field, o, n) == 0 <==> field == 0xffff && AllOnes(o) && SumWords(n) == 0
  {
    var i := SubWordsMeaning(0xffff - field, o);
    var j := AddWordsMeaning(SubWords(0xffff - field, o), n);
    k := i - j;
  }

  lemma {:induction false} AllOnesIsNotZero(s: seq<byte>)
    requires |s| % 2 == 0 && |s| > 0 && AllOnes(s)
    ensures SumWords(s) > 0
  {
  }

  /** The arithmetic of the main law, for the sums before and after the replacement. */
  lemma AdjustMatchesCanon(before: nat, after: nat, o: seq<byte>, n: seq<byte>)
    requires |o| % 2 == 0 && |n| == |o|
    requires after == before - SumWords(o) + SumWords(n) && before >= SumWords(o)
    ensures Adjusted(Not16(Canon(before)), o, n) == Not16(Canon(after)) <==> o == [] || after > 0
  {
    if o == [] {
      assert n == o;
      return;
    }
    var field := Not16(Canon(before));
    var r := Running(field, o, n);
    var k := CanonIsCongruent(before);
    var j := RunningMeaning(field, o, n);
    assert r != 0 by {
      if AllOnes(o) {
        AllOnesIsNotZero(o);
      }
    }
    assert after == r + 0xffff * (k - j);
    if after > 0 {
      CanonIsUnique(after, r, k - j);
    }
  }

  /** The main law of the incremental form. A field that complements the full checksum of
      message m becomes, bit for bit, the complement of the full checksum of the edited
      message, if and only if nothing is replaced or the edited message is not all zero. */
  lemma IncrementalEqualsFull(start: word, m: seq<byte>, at: nat, n: seq<byte>)
    requires at % 2 == 0 && |n| % 2 == 0 && at + |n| <= |m|
    ensures Adjusted(Not16(Canon(start + SumWords(m))), m[at..at + |n|], n)
            == Not16(Canon(start + SumWords(Splice(m, at, n))))
            <==> n == [] || start + SumWords(Splice(m, at, n)) > 0
  {
    SumWordsSplice(m, at, n);
    AdjustMatchesCanon(start + SumWords(m), start + SumWords(Splice(m, at, n)), m[at..at + |n|], n);
  }

  /** What a receiver checks: the words, checksum field included, fold to 0xffff. */
  predicate Verifies(total: nat) {
    Canon(total) == 0xffff
  }

  lemma VerifiesIffMultiple(total: nat)
    ensures Verifies(total) <==> total > 0 && total % 0xffff == 0
  {
    if Verifies(total) {
      var k := CanonIsCongruent(total);
      assert total == 0xffff * (k + 1);
    }
    if total > 0 && total % 0xffff == 0 {
      CanonIsUnique(total, 0xffff, total / 0xffff - 1);
    }
  }

  lemma VerdictIsModular(a: nat, b: nat, k: int)
    requires a == b + 0xffff * k && a > 0 && b > 0
    ensures Verifies(a) <==> Verifies(b)
  {
    if Verifies(a) {
      var i := CanonIsCongruent(a);
      CanonIsUnique(b, 0xffff, i - k);
    }
    if Verifies(b) {
      var i := CanonIsCongruent(b);
      CanonIsUnique(a, 0xffff, i + k);
    }
  }

  /** Filling a zero field with the complement of the sum makes any message verify. */
  lemma ComplementVerifies(sum: nat)
    ensures Verifies(sum + Not16(Canon(sum)))
  {
    var k := CanonIsCongruent(sum);
    assert sum + Not16(Canon(sum)) == 0xffff * (k + 1);
  }

  /** The adjuster neither spoils a message that verifies nor repairs one that does not:
      rest is everything but the field, before and after the replacement. */
  lemma AdjustKeepsVerdict(rest: nat, rest': nat, field: word, o: seq<byte>, n: seq<byte>)
    requires |o| % 2 == 0 && |n| % 2 == 0
    requires rest' == rest - SumWords(o) + SumWords(n)
    requires rest > 0 && rest' > 0
    ensures Verifies(rest + field) <==> Verifies(rest' + Adjusted(field, o, n))
  {
    var k := RunningMeaning(field, o, n);
    VerdictIsModular(rest + field, rest' + Adjusted(field, o, n), k);
  }

  /** Replacing words by themselves leaves every field alone except 0xffff, which turns
      into the other zero. */
  lemma AdjustBySameWords(field: word, o: seq<byte>)
    requires |o| % 2 == 0 && |o| > 0
    ensures Adjusted(field, o, o) == if field == 0xffff then 0 else field
  {
    var r := Running(field, o, o);
    var k := RunningMeaning(field, o, o);
    assert r != 0 by {
      if AllOnes(o) {
        AllOnesIsNotZero(o);
      }
    }
    assert r == 0xffff - field + 0xffff * k;
    assert if field == 0xffff then k == 1 else k == 0;
  }
}
