/** Sequences with elements left out. */
module Sequences {
  /** s without the element at position k. */
  function Without<T>(s: seq<T>, k: nat): (r: seq<T>)
    requires k < |s|
    ensures |r| == |s| - 1
    ensures forall j | 0 <= j < k :: r[j] == s[j]
    ensures forall j | k <= j < |r| :: r[j] == s[j + 1]
  {
    s[..k] + s[k + 1..]
  }

  /** s is t with some elements left out. */
  ghost predicate SubsequenceOf<T>(s: seq<T>, t: seq<T>)
    decreases |t|
  {
    if s == [] then true
    else if t == [] then false
    else (s[0] == t[0] && SubsequenceOf(s[1..], t[1..])) || SubsequenceOf(s, t[1..])
  }

  ghost predicate Distinct<T>(s: seq<T>) {
    forall i, j | 0 <= i < j < |s| :: s[i] != s[j]
  }

  lemma {:induction false} SubsequenceReflexive<T>(s: seq<T>)
    ensures SubsequenceOf(s, s)
  {
    if s != [] {
      SubsequenceReflexive(s[1..]);
    }
  }

  lemma SubsequenceCons<T>(x: T, s: seq<T>, t: seq<T>)
    requires SubsequenceOf(s, t)
    ensures SubsequenceOf([x] + s, [x] + t)
  {
    assert ([x] + s)[1..] == s && ([x] + t)[1..] == t;
  }

  lemma {:induction false} SubsequenceOfSuffix<T>(s: seq<T>, pre: seq<T>, t: seq<T>)
    requires SubsequenceOf(s, t)
    ensures SubsequenceOf(s, pre + t)
    decreases |pre|
  {
    if pre == [] {
      assert pre + t == t;
    } else {
      SubsequenceOfSuffix(s, pre[1..], t);
      assert (pre + t)[1..] == pre[1..] + t;
    }
  }

  lemma {:induction false} SubsequenceMembers<T>(s: seq<T>, t: seq<T>, i: nat) returns (j: nat)
    requires SubsequenceOf(s, t) && i < |s|
    ensures i <= j < |t| && s[i] == t[j]
    decreases |t|
  {
    if s[0] == t[0] && SubsequenceOf(s[1..], t[1..]) {
      if i == 0 {
        j := 0;
      } else {
        j := SubsequenceMembers(s[1..], t[1..], i - 1);
        j := j + 1;
      }
    } else {
      j := SubsequenceMembers(s, t[1..], i);
      j := j + 1;
    }
  }

  lemma {:induction false} SubsequenceDistinct<T>(s: seq<T>, t: seq<T>)
    requires SubsequenceOf(s, t) && Distinct(t)
    ensures Distinct(s)
    decreases |t|
  {
    if s == [] {
    } else if s[0] == t[0] && SubsequenceOf(s[1..], t[1..]) {
      SubsequenceDistinct(s[1..], t[1..]);
      forall j | 0 < j < |s| ensures s[0] != s[j] {
        var k := SubsequenceMembers(s[1..], t[1..], j - 1);
        assert t[1..][k] == t[k + 1];
      }
      assert forall i, j | 1 <= i < j < |s| :: s[i] == s[1..][i - 1] && s[j] == s[1..][j - 1];
    } else {
      SubsequenceDistinct(s, t[1..]);
    }
  }
}
