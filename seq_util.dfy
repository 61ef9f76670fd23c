/**
 * Facts about sequences that the encoder's proofs use, stated once for any
 * element type so that they are proved away from the encoder's definitions.
 */
module SeqUtil {

  /** A sequence is what stands before index `k`, the element at `k`, and what follows it. */
  lemma SplitAround<T>(s: seq<T>, k: nat)
    requires k < |s|
    ensures s == s[..k] + [s[k]] + s[k + 1..]
  {
  }

  /** Dropping the last element of `a + b`, for a non-empty `b`, drops it from `b`. */
  lemma DropLastOfAppend<T>(a: seq<T>, b: seq<T>)
    requires |b| > 0
    ensures (a + b)[..|a + b| - 1] == a + b[..|b| - 1]
    ensures (a + b)[|a + b| - 1] == b[|b| - 1]
  {
  }

  /** Appending nothing. */
  lemma AppendEmpty<T>(a: seq<T>)
    ensures a + [] == a
  {
  }

  /** A one-element sequence has nothing before its element. */
  lemma SingletonPrefix<T>(x: T)
    ensures [x][..0] == [] && [x][0] == x
  {
  }

  /** Appending a concatenation is appending its parts one after the other. */
  lemma AppendAssoc<T>(s: seq<T>, a: seq<T>, b: seq<T>)
    ensures s + (a + b) == s + a + b
  {
  }

  lemma Append3<T>(s: seq<T>, a: seq<T>, b: seq<T>, c: seq<T>)
    ensures s + (a + b + c) == s + a + b + c
  {
  }

  lemma Append5<T>(s: seq<T>, a: seq<T>, b: seq<T>, c: seq<T>, d: seq<T>, e: seq<T>)
    ensures s + (a + b + c + d + e) == s + a + b + c + d + e
  {
  }

  /** `a` is `b` with some elements left out, the others kept in order. */
  predicate SubsequenceOf<T(==)>(a: seq<T>, b: seq<T>)
    decreases |b|
  {
    if a == [] then true
    else if b == [] then false
    else if a[|a| - 1] == b[|b| - 1] then SubsequenceOf(a[..|a| - 1], b[..|b| - 1])
    else SubsequenceOf(a, b[..|b| - 1])
  }

  /** An element put in front of both sequences, or of the longer one only, keeps the one a subsequence of the other. */
  lemma {:induction false} SubsequencePrepend<T>(x: T, a: seq<T>, b: seq<T>)
    requires SubsequenceOf(a, b)
    ensures SubsequenceOf(a, [x] + b) && SubsequenceOf([x] + a, [x] + b)
    decreases |b|
  {
    if b == [] {
      assert [x][..0] == [];
    } else {
      var b' := b[..|b| - 1];
      assert ([x] + b)[..|[x] + b| - 1] == [x] + b';
      if a == [] {
        SubsequencePrepend(x, a, b');
        assert [x][..0] == [];
      } else {
        var a' := a[..|a| - 1];
        assert ([x] + a)[..|[x] + a| - 1] == [x] + a';
        if a[|a| - 1] == b[|b| - 1] {
          SubsequencePrepend(x, a', b');
        } else {
          SubsequencePrepend(x, a, b');
        }
      }
    }
  }
}
