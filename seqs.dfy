/**
 * Sequence operations that the menu's list-building loops perform, defined
 * element by element from the END of the sequence, the way a loop that
 * appends (or prepends) one element per step builds its result.
 */
module Seqs {

  /** The elements of `s` that satisfy `p`, in their order in `s`. */
  function Keep<T>(s: seq<T>, p: T -> bool): (r: seq<T>)
    ensures |r| <= |s|
    ensures forall x :: x in r ==> x in s && p(x)
    decreases |s|
  {
    if s == [] then []
    else Keep(s[..|s| - 1], p) + (if p(s[|s| - 1]) then [s[|s| - 1]] else [])
  }

  /** `idx` lists positions of a sequence of length `n` in strictly increasing order. */
  ghost predicate Increasing(idx: seq<nat>, n: nat)
  {
    && (forall k :: 0 <= k < |idx| ==> idx[k] < n)
    && (forall k, l :: 0 <= k < l < |idx| ==> idx[k] < idx[l])
  }

  /**
   * `r` is the subsequence of `s` taken at the positions `idx`: the same
   * elements, in the same order, none taken twice.
   */
  ghost predicate Embedding<T>(r: seq<T>, s: seq<T>, idx: seq<nat>)
  {
    && |idx| == |r|
    && Increasing(idx, |s|)
    && forall k :: 0 <= k < |r| ==> r[k] == s[idx[k]]
  }

  /**
   * Keep(s, p) is exactly s restricted to the positions whose element
   * satisfies p, in increasing order of position.
   */
  lemma {:induction false} KeepSelects<T>(s: seq<T>, p: T -> bool) returns (idx: seq<nat>)
    ensures Embedding(Keep(s, p), s, idx)
    ensures forall j :: 0 <= j < |s| ==> (j in idx <==> p(s[j]))
    decreases |s|
  {
    if s == [] {
      idx := [];
    } else {
      var n := |s| - 1;
      var init := s[..n];
      var prev := KeepSelects(init, p);
      if p(s[n]) {
        idx := prev + [n];
        assert Keep(s, p) == Keep(init, p) + [s[n]];
        EmbeddingExtend(Keep(init, p), init, prev, s);
      } else {
        idx := prev;
        assert Keep(s, p) == Keep(init, p);
        EmbeddingWiden(Keep(init, p), init, prev, s);
      }
    }
  }

  /** An embedding into a prefix of `s` extends by the element after the prefix. */
  lemma EmbeddingExtend<T>(r: seq<T>, init: seq<T>, idx: seq<nat>, s: seq<T>)
    requires Embedding(r, init, idx)
    requires |s| == |init| + 1 && init == s[..|init|]
    ensures Embedding(r + [s[|init|]], s, idx + [|init|])
  {
  }

  /** An embedding into a prefix of `s` is an embedding into `s`. */
  lemma EmbeddingWiden<T>(r: seq<T>, init: seq<T>, idx: seq<nat>, s: seq<T>)
    requires Embedding(r, init, idx)
    requires |init| <= |s| && init == s[..|init|]
    ensures Embedding(r, s, idx)
  {
  }

  /** Keeping with a predicate every element satisfies changes nothing. */
  lemma {:induction false} KeepAll<T>(s: seq<T>, p: T -> bool)
    requires forall k :: 0 <= k < |s| ==> p(s[k])
    ensures Keep(s, p) == s
    decreases |s|
  {
    if s != [] {
      KeepAll(s[..|s| - 1], p);
      assert s[..|s| - 1] + [s[|s| - 1]] == s;
    }
  }

  /** Keeping with a predicate no element satisfies leaves nothing. */
  lemma {:induction false} KeepNone<T>(s: seq<T>, p: T -> bool)
    requires forall k :: 0 <= k < |s| ==> !p(s[k])
    ensures Keep(s, p) == []
    decreases |s|
  {
    if s != [] {
      KeepNone(s[..|s| - 1], p);
    }
  }

  /** Keeping on a concatenation keeps on each part. */
  lemma {:induction false} KeepAppend<T>(s: seq<T>, t: seq<T>, p: T -> bool)
    ensures Keep(s + t, p) == Keep(s, p) + Keep(t, p)
    decreases |t|
  {
    if t == [] {
      assert s + t == s;
    } else {
      var n := |t| - 1;
      assert (s + t)[..|s + t| - 1] == s + t[..n];
      KeepAppend(s, t[..n], p);
    }
  }

  /** `s` in reverse order, as a list that is built by prepending. */
  function Reverse<T>(s: seq<T>): (r: seq<T>)
    ensures |r| == |s|
    decreases |s|
  {
    if s == [] then [] else [s[|s| - 1]] + Reverse(s[..|s| - 1])
  }

  /** Appending at the back is prepending to the reversed list. */
  lemma ReverseSnoc<T>(s: seq<T>, x: T)
    ensures Reverse(s + [x]) == [x] + Reverse(s)
  {
  }

  lemma {:induction false} ReverseAt<T>(s: seq<T>, k: nat)
    requires k < |s|
    ensures Reverse(s)[k] == s[|s| - 1 - k]
    decreases |s|
  {
    if k > 0 {
      ReverseAt(s[..|s| - 1], k - 1);
    }
  }

  /** Reversing twice gives back the original order. */
  lemma ReverseReverse<T>(s: seq<T>)
    ensures Reverse(Reverse(s)) == s
  {
    forall k | 0 <= k < |s|
      ensures Reverse(Reverse(s))[k] == s[k]
    {
      ReverseAt(Reverse(s), k);
      ReverseAt(s, |s| - 1 - k);
    }
  }

  /** No element occurs twice. */
  ghost predicate Distinct<T>(s: seq<T>)
  {
    forall i, j :: 0 <= i < j < |s| ==> s[i] != s[j]
  }

  /**
   * The distinct elements of `s`, each at the place of its first occurrence:
   * a single scan that appends an element the first time it is seen.
   */
  function Dedup<T(==)>(s: seq<T>): (r: seq<T>)
    ensures forall x :: x in r ==> x in s
    ensures forall x :: x in s ==> x in r
    decreases |s|
  {
    if s == [] then []
    else
      var d := Dedup(s[..|s| - 1]);
      if s[|s| - 1] in d then d else d + [s[|s| - 1]]
  }

  lemma {:induction false} DedupDistinct<T>(s: seq<T>)
    ensures Distinct(Dedup(s))
    decreases |s|
  {
    if s != [] {
      DedupDistinct(s[..|s| - 1]);
    }
  }

  /**
   * Dedup(s) picks, for each element, its FIRST position in s, and lists
   * the picks in increasing order of position.
   */
  lemma {:induction false} DedupFirstOccurrences<T>(s: seq<T>) returns (idx: seq<nat>)
    ensures Embedding(Dedup(s), s, idx)
    ensures forall k, j :: 0 <= k < |idx| && 0 <= j < idx[k] ==> s[j] != Dedup(s)[k]
    decreases |s|
  {
    if s == [] {
      idx := [];
    } else {
      var n := |s| - 1;
      var init := s[..n];
      var prev := DedupFirstOccurrences(init);
      assert forall j :: 0 <= j < n ==> init[j] == s[j];
      if s[n] in Dedup(init) {
        idx := prev;
      } else {
        idx := prev + [n];
        assert forall j :: 0 <= j < n ==> s[j] != s[n] by {
          forall j | 0 <= j < n ensures s[j] != s[n] {
            assert init[j] in init;
          }
        }
      }
    }
  }
}
