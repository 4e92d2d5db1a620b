/** Strings as JavaScript sees them: the white-space class shared by
    `String.prototype.trim` and the regular-expression escape `\s`, and
    trimming. */
module Text {

  /** The characters ECMAScript calls WhiteSpace or LineTerminator: tab,
      line feed, vertical tab, form feed, carriage return, space, no-break
      space, the byte order mark and the Unicode space separators. `trim`
      removes exactly these, and `\s` matches exactly these. */
  predicate IsSpace(c: char) {
    || c == '\t' || c == '\n' || c == '\U{000B}' || c == '\U{000C}' || c == '\r'
    || c == ' ' || c == '\U{00A0}' || c == '\U{1680}'
    || ('\U{2000}' <= c <= '\U{200A}')
    || c == '\U{2028}' || c == '\U{2029}' || c == '\U{202F}' || c == '\U{205F}'
    || c == '\U{3000}' || c == '\U{FEFF}'
  }

  /** Every character of `s` is white space (vacuously true of ""). */
  predicate AllSpace(s: string) {
    forall i :: 0 <= i < |s| ==> IsSpace(s[i])
  }

  /** `s` begins and ends with a non-space character, or is empty. */
  predicate IsTrimmed(s: string) {
    s == [] || (!IsSpace(s[0]) && !IsSpace(s[|s| - 1]))
  }

  /** The number of white-space characters at the start of `s`. */
  function LeadingSpace(s: string): (n: nat)
    ensures n <= |s| && AllSpace(s[..n])
    ensures n == |s| || !IsSpace(s[n])
  {
    if s == [] || !IsSpace(s[0]) then 0
    else
      var n := 1 + LeadingSpace(s[1..]);
      assert forall i :: 0 <= i < n ==> s[..n][i] == s[i];
      assert forall i :: 1 <= i < n ==> s[i] == s[1..][..n - 1][i - 1];
      n
  }

  /** Where the trailing white space of `s` begins, looking no further left
      than `lo`. */
  function TrailingSpaceFrom(s: string, lo: nat): (b: nat)
    requires lo <= |s|
    ensures lo <= b <= |s| && AllSpace(s[b..])
    ensures b == lo || !IsSpace(s[b - 1])
  {
    if |s| == lo || !IsSpace(s[|s| - 1]) then |s|
    else
      var b := TrailingSpaceFrom(s[..|s| - 1], lo);
      assert forall i :: b <= i < |s| - 1 ==> s[i] == s[..|s| - 1][b..][i - b];
      assert forall i :: b <= i < |s| ==> s[b..][i - b] == s[i];
      assert b > lo ==> s[b - 1] == s[..|s| - 1][b - 1];
      b
  }

  /** `String.prototype.trim`: the middle of `s` with the white space on both
      sides removed. It is empty exactly when `s` is nothing but white space,
      and otherwise `s` is white space, then the result, then white space. */
  function Trim(s: string): (r: string)
    ensures IsTrimmed(r)
    ensures r == [] <==> AllSpace(s)
    ensures Surrounds(s, LeadingSpace(s), r)
  {
    var a := LeadingSpace(s);
    var b := TrailingSpaceFrom(s, a);
    SpaceAround(s, a, s[a..b]);
    s[a..b]
  }

  /** `s` is white space up to index `k`, then `r`, then white space. */
  predicate Surrounds(s: string, k: int, r: string) {
    0 <= k && k + |r| <= |s| && s[k..k + |r|] == r
    && AllSpace(s[..k]) && AllSpace(s[k + |r|..])
  }

  /** White space, then `r`, then white space: the whole is white space only
      when `r` is empty, provided `r` does not start with white space. */
  lemma SpaceAround(s: string, k: nat, r: string)
    requires Surrounds(s, k, r)
    requires r == [] || !IsSpace(r[0])
    ensures r == [] <==> AllSpace(s)
  {
    if r == [] {
      forall i | 0 <= i < |s|
        ensures IsSpace(s[i])
      {
        if i < k {
          assert s[i] == s[..k][i];
        } else {
          assert s[i] == s[k..][i - k];
        }
      }
    } else {
      assert s[k] == s[k..k + |r|][0];
    }
  }

  /** `trim` is the only way to see `s` as white space, a non-empty trimmed
      middle, and white space. */
  lemma TrimUnique(s: string, k: nat, r: string)
    requires Surrounds(s, k, r) && IsTrimmed(r) && r != []
    ensures Trim(s) == r
  {
    var a := LeadingSpace(s);
    var t := Trim(s);
    assert !IsSpace(s[k]) by {
      assert s[k] == s[k..k + |r|][0];
    }
    assert a == k;
    assert t != [] by {
      SpaceAround(s, k, r);
    }
    var e, f := k + |r|, k + |t|;
    assert !IsSpace(s[e - 1]) by {
      assert s[e - 1] == s[k..e][|r| - 1];
    }
    assert !IsSpace(s[f - 1]) by {
      assert s[f - 1] == s[k..f][|t| - 1];
    }
  }

  /** The same, for every such view at once. */
  lemma TrimUniqueAll(s: string)
    ensures forall k: nat, r :: Surrounds(s, k, r) && IsTrimmed(r) && r != [] ==> Trim(s) == r
  {
    forall k: nat, r | Surrounds(s, k, r) && IsTrimmed(r) && r != []
      ensures Trim(s) == r
    {
      TrimUnique(s, k, r);
    }
  }

  /** Trimming is idempotent. */
  lemma TrimIdempotent(s: string)
    ensures Trim(Trim(s)) == Trim(s)
  {
    TrimmedIsFixed(Trim(s));
  }

  /** A string that neither begins nor ends with white space trims to itself. */
  lemma TrimmedIsFixed(s: string)
    requires IsTrimmed(s)
    ensures Trim(s) == s
  {
    assert LeadingSpace(s) == 0;
  }
}
