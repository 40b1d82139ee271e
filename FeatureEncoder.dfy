/**
 * The feature encoder of `get_predicted_value`: a zero vector with one
 * position per known symptom, in which the position of every recognised
 * input token is set to 1. Unknown tokens are skipped.
 */
module FeatureEncoder {

  /**
   * The symptom index is a map from symptom name to feature position. When
   * the map is well formed, every position lies inside the vector, whose
   * length is the number of symptoms.
   */
  ghost predicate WellFormed(index: map<string, nat>) {
    forall t :: t in index ==> index[t] < |index|
  }

  /** No two symptom names share a position. */
  ghost predicate Injective(index: map<string, nat>) {
    forall s, t :: s in index && t in index && index[s] == index[t] ==> s == t
  }

  /** Every entry of the vector is 0 or 1. */
  ghost predicate Binary(v: seq<int>) {
    forall i :: 0 <= i < |v| ==> v[i] == 0 || v[i] == 1
  }

  /** Some token of the input is a symptom name mapped to position `i`. */
  ghost predicate Marks(tokens: seq<string>, index: map<string, nat>, i: int) {
    exists t :: t in tokens && t in index && index[t] == i
  }

  /**
   * The vector the encoder loop has built after reading `tokens`, defined
   * token by token as the loop runs: start from zeros, and for a recognised
   * token set its position to 1.
   */
  function FeatureVector(tokens: seq<string>, index: map<string, nat>): (v: seq<int>)
    requires WellFormed(index)
    ensures |v| == |index|
    ensures Binary(v)
    decreases |tokens|
  {
    if tokens == [] then seq(|index|, _ => 0)
    else
      var prev := FeatureVector(tokens[..|tokens| - 1], index);
      var t := tokens[|tokens| - 1];
      if t in index then prev[index[t] := 1] else prev
  }

  /** The encoder loop, writing positions of a freshly zeroed array in place. */
  method Encode(tokens: seq<string>, index: map<string, nat>) returns (v: seq<int>)
    requires WellFormed(index)
    ensures v == FeatureVector(tokens, index)
  {
    var a := new int[|index|](_ => 0);
    var k := 0;
    while k < |tokens|
      invariant 0 <= k <= |tokens|
      invariant a[..] == FeatureVector(tokens[..k], index)
    {
      var t := tokens[k];
      assert tokens[..k + 1][..k] == tokens[..k];
      if t in index {
        a[index[t]] := 1;
      }
      k := k + 1;
    }
    assert tokens[..|tokens|] == tokens;
    v := a[..];
  }

  /**
   * The declarative meaning of the vector: entry `i` is 1 exactly when some
   * input token is a symptom name mapped to `i`, and 0 otherwise.
   */
  lemma {:induction false} FeatureVectorAt(tokens: seq<string>, index: map<string, nat>, i: int)
    requires WellFormed(index) && 0 <= i < |index|
    ensures FeatureVector(tokens, index)[i] == (if Marks(tokens, index, i) then 1 else 0)
    decreases |tokens|
  {
    if tokens != [] {
      var init := tokens[..|tokens| - 1];
      var t := tokens[|tokens| - 1];
      assert tokens == init + [t];
      FeatureVectorAt(init, index, i);
      if Marks(init, index, i) {
        var u :| u in init && u in index && index[u] == i;
        assert u in tokens;
      }
      if t in index && index[t] == i {
        assert t in tokens;
      }
      if Marks(tokens, index, i) {
        var u :| u in tokens && u in index && index[u] == i;
        assert u == t || u in init;
      }
    }
  }

  /**
   * Only which symptom names occur matters: two inputs that contain the same
   * recognised tokens, in any order, any number of times, and with any
   * unknown tokens, encode to the same vector.
   */
  lemma SameRecognisedSameVector(a: seq<string>, b: seq<string>, index: map<string, nat>)
    requires WellFormed(index)
    requires forall t :: t in index ==> (t in a <==> t in b)
    ensures FeatureVector(a, index) == FeatureVector(b, index)
  {
    var va, vb := FeatureVector(a, index), FeatureVector(b, index);
    forall i | 0 <= i < |index|
      ensures va[i] == vb[i]
    {
      FeatureVectorAt(a, index, i);
      FeatureVectorAt(b, index, i);
      assert Marks(a, index, i) == Marks(b, index, i);
    }
  }

  /** An unknown token, wherever it stands, leaves the vector as it was. */
  lemma UnknownTokenIgnored(a: seq<string>, t: string, b: seq<string>, index: map<string, nat>)
    requires WellFormed(index) && t !in index
    ensures FeatureVector(a + [t] + b, index) == FeatureVector(a + b, index)
  {
    SameRecognisedSameVector(a + [t] + b, a + b, index);
  }

  /** An input with no recognised token (the empty input included) encodes to all zeros. */
  lemma NoRecognisedIsZero(tokens: seq<string>, index: map<string, nat>)
    requires WellFormed(index)
    requires forall k :: 0 <= k < |tokens| ==> tokens[k] !in index
    ensures FeatureVector(tokens, index) == seq(|index|, _ => 0)
  {
    SameRecognisedSameVector(tokens, [], index);
  }

  /** The number of 1 entries of a vector. */
  function Ones(v: seq<int>): nat {
    if v == [] then 0 else (if v[0] == 1 then 1 else 0) + Ones(v[1..])
  }

  /** The distinct input tokens that are symptom names. */
  ghost function Recognised(tokens: seq<string>, index: map<string, nat>): set<string> {
    set t | t in tokens && t in index
  }

  /** Setting one entry to 1 adds a 1 unless the entry already was 1. */
  lemma {:induction false} OnesSet(v: seq<int>, p: nat)
    requires p < |v|
    ensures Ones(v[p := 1]) == Ones(v) + (if v[p] == 1 then 0 else 1)
    decreases p
  {
    if p > 0 {
      assert v[p := 1][1..] == v[1..][p - 1 := 1];
      OnesSet(v[1..], p - 1);
    } else {
      assert v[p := 1][1..] == v[1..];
    }
  }

  /**
   * With distinct positions for distinct symptoms, the vector holds exactly
   * as many 1 entries as the input holds distinct recognised tokens:
   * positions are set, never incremented, so duplicates count once.
   */
  lemma {:induction false} OnesCountDistinct(tokens: seq<string>, index: map<string, nat>)
    requires WellFormed(index) && Injective(index)
    ensures Ones(FeatureVector(tokens, index)) == |Recognised(tokens, index)|
    decreases |tokens|
  {
    if tokens == [] {
      assert Recognised(tokens, index) == {};
      ZerosHaveNoOnes(|index|);
    } else {
      var init := tokens[..|tokens| - 1];
      var t := tokens[|tokens| - 1];
      assert tokens == init + [t];
      OnesCountDistinct(init, index);
      var prev := FeatureVector(init, index);
      var r := Recognised(init, index);
      if t in index {
        assert Recognised(tokens, index) == r + {t};
        OnesSet(prev, index[t]);
        FeatureVectorAt(init, index, index[t]);
        assert Marks(init, index, index[t]) <==> t in r;
      } else {
        assert Recognised(tokens, index) == r;
      }
    }
  }

  /** The all-zero vector holds no 1 entry. */
  lemma {:induction false} ZerosHaveNoOnes(n: nat)
    ensures Ones(seq(n, _ => 0)) == 0
  {
    if n > 0 {
      assert seq(n, _ => 0)[1..] == seq(n - 1, _ => 0);
      ZerosHaveNoOnes(n - 1);
    }
  }
}
