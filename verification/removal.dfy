/**
  Textual removal of a literal token from a string, as a left-to-right scan.

  Replacing every match of the regular expression `&?T` (with `T` a literal,
  non-empty token) by the empty string is the same as this scan: at the current
  position, if `"&" + T` starts there it is dropped and the scan continues
  after it; otherwise if `T` starts there it is dropped likewise; otherwise the
  character is kept. The optional `&` is greedy, so the longer match is tried
  first, and the token is never empty, so there are no empty matches.
*/
module Removal {

  /** `p` is a prefix of `s`. */
  predicate StartsWith(s: string, p: string)
  {
    |p| <= |s| && s[..|p|] == p
  }

  /** `n` occurs somewhere in `s`. */
  predicate Contains(s: string, n: string)
    decreases |s|
  {
    StartsWith(s, n) || (s != [] && Contains(s[1..], n))
  }

  /** `a` is `b` with some characters deleted, the rest in their order. */
  predicate Subsequence(a: string, b: string)
    decreases |b|
  {
    if a == [] then true
    else if b == [] then false
    else (a[0] == b[0] && Subsequence(a[1..], b[1..])) || Subsequence(a, b[1..])
  }

  /** `s` with every match of `&?n` deleted, scanning left to right. */
  function Remove(s: string, n: string): (r: string)
    requires n != []
    ensures |r| <= |s|
    decreases |s|
  {
    if s == [] then []
    else if StartsWith(s, "&" + n) then Remove(s[|n| + 1..], n)
    else if StartsWith(s, n) then Remove(s[|n|..], n)
    else [s[0]] + Remove(s[1..], n)
  }

  /** Removal changes the text exactly when the token occurs in it, and then shortens it. */
  lemma {:induction false} RemoveChangesIffContains(s: string, n: string)
    requires n != []
    ensures Contains(s, n) ==> |Remove(s, n)| < |s|
    ensures !Contains(s, n) <==> Remove(s, n) == s
    decreases |s|
  {
    if s == [] {
    } else if StartsWith(s, "&" + n) {
      assert StartsWith(s[1..], n) by { assert s[1..][..|n|] == s[..|n| + 1][1..]; }
    } else if StartsWith(s, n) {
    } else {
      RemoveChangesIffContains(s[1..], n);
      assert Remove(s, n) == [s[0]] + Remove(s[1..], n);
      if Remove(s, n) == s {
        assert Remove(s[1..], n) == s[1..];
      }
    }
  }

  /** Nothing but deletions happen: the kept characters stay in order. */
  lemma {:induction false} RemoveIsSubsequence(s: string, n: string)
    requires n != []
    ensures Subsequence(Remove(s, n), s)
    decreases |s|
  {
    if s == [] {
    } else if StartsWith(s, "&" + n) {
      RemoveIsSubsequence(s[|n| + 1..], n);
      SubsequenceOfSuffix(Remove(s, n), s, |n| + 1);
    } else if StartsWith(s, n) {
      RemoveIsSubsequence(s[|n|..], n);
      SubsequenceOfSuffix(Remove(s, n), s, |n|);
    } else {
      RemoveIsSubsequence(s[1..], n);
      var r := Remove(s, n);
      assert r[0] == s[0] && r[1..] == Remove(s[1..], n);
    }
  }

  /** A subsequence of a suffix is a subsequence of the whole. */
  lemma {:induction false} SubsequenceOfSuffix(a: string, b: string, k: nat)
    requires k <= |b|
    requires Subsequence(a, b[k..])
    ensures Subsequence(a, b)
    decreases k
  {
    if k > 0 {
      assert b[1..][k - 1..] == b[k..];
      SubsequenceOfSuffix(a, b[1..], k - 1);
      if a != [] {
        assert Subsequence(a, b[1..]);
      }
    }
  }

  /** A token whose first character differs does not start the text. */
  lemma FirstCharMismatch(s: string, p: string)
    requires s != [] && p != [] && s[0] != p[0]
    ensures !StartsWith(s, p)
  {
    if |p| <= |s| {
      assert s[..|p|][0] != p[0];
    }
  }

  /** Text shorter than the token cannot contain it. */
  lemma {:induction false} ShortDoesNotContain(s: string, n: string)
    requires |s| < |n|
    ensures !Contains(s, n)
    decreases |s|
  {
    if s != [] {
      ShortDoesNotContain(s[1..], n);
    }
  }

  /**
    When the token holds no '&' and the second part starts at a '&', no match
    straddles the boundary, so removal works on the two parts independently.
  */
  lemma {:induction false} RemoveConcat(a: string, b: string, n: string)
    requires n != [] && '&' !in n
    requires b == [] || b[0] == '&'
    ensures Remove(a + b, n) == Remove(a, n) + Remove(b, n)
    decreases |a|, 1
  {
    if a == [] {
      assert a + b == b;
    } else {
      AmpFree(n);
      StartsWithConcat(a, b, "&" + n);
      StartsWithConcat(a, b, n);
      if StartsWith(a, "&" + n) {
        RemoveConcatSkip(a, b, n, |n| + 1);
      } else if StartsWith(a, n) {
        RemoveConcatSkip(a, b, n, |n|);
      } else {
        RemoveConcatKeep(a, b, n);
      }
    }
  }

  /** The step of `RemoveConcat` where a match at the front of `a` is dropped. */
  lemma {:induction false} RemoveConcatSkip(a: string, b: string, n: string, k: nat)
    requires n != [] && '&' !in n
    requires b == [] || b[0] == '&'
    requires 0 < k <= |a|
    requires Remove(a + b, n) == Remove((a + b)[k..], n)
    requires Remove(a, n) == Remove(a[k..], n)
    ensures Remove(a + b, n) == Remove(a, n) + Remove(b, n)
    decreases |a|, 0
  {
    DropOfConcat(a, b, k);
    RemoveConcat(a[k..], b, n);
  }

  /** The step of `RemoveConcat` where the front character of `a` is kept. */
  lemma {:induction false} RemoveConcatKeep(a: string, b: string, n: string)
    requires n != [] && '&' !in n
    requires b == [] || b[0] == '&'
    requires a != []
    requires Remove(a + b, n) == [a[0]] + Remove((a + b)[1..], n)
    requires Remove(a, n) == [a[0]] + Remove(a[1..], n)
    ensures Remove(a + b, n) == Remove(a, n) + Remove(b, n)
    decreases |a|, 0
  {
    TailOfConcat(a, b);
    RemoveConcat(a[1..], b, n);
    ConsAssoc(a[0], Remove(a[1..], n), Remove(b, n));
  }

  /** Rewriting step on sequence concatenation. */
  lemma DropOfConcat(a: string, b: string, k: nat)
    requires k <= |a|
    ensures (a + b)[k..] == a[k..] + b
  {
  }

  /** Rewriting step on sequence concatenation. */
  lemma TailOfConcat(a: string, b: string)
    requires a != []
    ensures (a + b)[1..] == a[1..] + b
  {
  }

  /** Rewriting step on sequence concatenation. */
  lemma ConsAssoc(x: char, p: string, q: string)
    ensures [x] + (p + q) == ([x] + p) + q
  {
  }

  /**
    A token preceded by '&' between two token-free parts is cut out with its
    '&', and nothing else is.
  */
  lemma RemoveAfterPrefix(a: string, c: string, n: string)
    requires n != [] && '&' !in n
    requires !Contains(a, n) && !Contains(c, n)
    requires c == [] || c[0] == '&'
    ensures Remove(a + "&" + n + c, n) == a + c
  {
    RemoveAmpTokenAlone(n, c);
    RemoveChangesIffContains(a, n);
    AmpTokenAssoc(a, n, c);
    RemoveConcat(a, "&" + n + c, n);
  }

  /** `"&" + n` in front of token-free text is all that is removed. */
  lemma RemoveAmpTokenAlone(n: string, c: string)
    requires n != [] && !Contains(c, n)
    ensures Remove("&" + n + c, n) == c
  {
    RemoveAmpToken(n, c);
    RemoveChangesIffContains(c, n);
  }

  /** Rewriting step on sequence concatenation. */
  lemma AmpTokenAssoc(a: string, n: string, c: string)
    ensures a + "&" + n + c == a + ("&" + n + c)
  {
  }

  /** `"&" + n` at the front is dropped. */
  lemma RemoveAmpToken(n: string, c: string)
    requires n != []
    ensures Remove("&" + n + c, n) == Remove(c, n)
  {
    var tail := "&" + n + c;
    assert StartsWith(tail, "&" + n) by { assert tail[..|n| + 1] == "&" + n; }
    assert tail[|n| + 1..] == c;
  }

  lemma AmpFree(n: string)
    requires '&' !in n
    ensures forall i :: 1 <= i < |n| ==> n[i] != '&'
    ensures forall i :: 1 <= i < |"&" + n| ==> ("&" + n)[i] != '&'
  {
    forall i | 1 <= i < |"&" + n|
      ensures ("&" + n)[i] != '&'
    {
      assert ("&" + n)[i] == n[i - 1];
    }
  }

  /** Whether a token starts the joined text is decided by the first part. */
  lemma StartsWithConcat(a: string, b: string, p: string)
    requires a != []
    requires b == [] || b[0] == '&'
    requires forall i :: 1 <= i < |p| ==> p[i] != '&'
    ensures StartsWith(a + b, p) <==> |p| <= |a| && StartsWith(a, p)
  {
    if |p| > |a| {
      NoStraddle(a, b, p);
    } else {
      assert (a + b)[..|p|] == a[..|p|];
    }
  }

  /** A token with no '&' after its first character cannot run past a '&'. */
  lemma NoStraddle(a: string, b: string, p: string)
    requires a != [] && |a| < |p|
    requires b == [] || b[0] == '&'
    requires forall i :: 1 <= i < |p| ==> p[i] != '&'
    ensures !StartsWith(a + b, p)
  {
    var s := a + b;
    if |p| <= |s| {
      assert s[..|p|][|a|] == '&';
      assert p[|a|] != '&';
    }
  }

  /** A string contains each of its substrings. */
  lemma {:induction false} ContainsInfix(x: string, n: string, y: string)
    ensures Contains(x + n + y, n)
    decreases |x|
  {
    if x == [] {
      assert (x + n + y)[..|n|] == n;
    } else {
      assert (x + n + y)[1..] == x[1..] + n + y;
      ContainsInfix(x[1..], n, y);
    }
  }
}
