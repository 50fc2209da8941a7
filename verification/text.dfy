/** Python's `str.strip()` with no argument, which the mock-interview
    answer guard applies before measuring an answer. */
module Text {

  /** The code points for which Python's `str.isspace()` holds. */
  predicate IsSpace(c: char): (space: bool)
    ensures c == ' ' || c == '\t' || c == '\n' || c == '\r' ==> space
    ensures '!' <= c <= '~' ==> !space
  {
    || '\U{9}' <= c <= '\U{D}'
    || '\U{1C}' <= c <= '\U{20}'
    || c == '\U{85}' || c == '\U{A0}' || c == '\U{1680}'
    || '\U{2000}' <= c <= '\U{200A}'
    || c == '\U{2028}' || c == '\U{2029}' || c == '\U{202F}'
    || c == '\U{205F}' || c == '\U{3000}'
  }

  predicate AllSpace(s: string) {
    forall k :: 0 <= k < |s| ==> IsSpace(s[k])
  }

  /** Length of the longest all-whitespace prefix of `s`. */
  function LeadingSpaces(s: string): (n: nat)
    ensures n <= |s|
    ensures forall k :: 0 <= k < n ==> IsSpace(s[k])
    ensures n < |s| ==> !IsSpace(s[n])
  {
    if s == [] || !IsSpace(s[0]) then 0
    else
      var n := 1 + LeadingSpaces(s[1..]);
      assert forall k :: 1 <= k < n ==> s[k] == s[1..][k - 1];
      n
  }

  /** Length of the longest all-whitespace suffix of `s`. */
  function TrailingSpaces(s: string): (n: nat)
    ensures n <= |s|
    ensures forall k :: |s| - n <= k < |s| ==> IsSpace(s[k])
    ensures n < |s| ==> !IsSpace(s[|s| - 1 - n])
  {
    if s == [] || !IsSpace(s[|s| - 1]) then 0
    else
      var front := s[..|s| - 1];
      var n := 1 + TrailingSpaces(front);
      assert forall k :: |s| - n <= k < |s| - 1 ==> s[k] == front[k];
      n
  }

  /** `s` without its leading and trailing whitespace: the result is the
      contiguous middle of `s` that begins and ends with a non-space, and
      everything cut off on either side is whitespace. */
  function Strip(s: string): (r: string)
    ensures LeadingSpaces(s) + |r| <= |s|
    ensures r == s[LeadingSpaces(s)..LeadingSpaces(s) + |r|]
    ensures forall k :: LeadingSpaces(s) + |r| <= k < |s| ==> IsSpace(s[k])
    ensures r != [] ==> !IsSpace(r[0]) && !IsSpace(r[|r| - 1])
    ensures r == [] <==> AllSpace(s)
  {
    var i := LeadingSpaces(s);
    if i == |s| then [] else s[i..|s| - TrailingSpaces(s)]
  }

  /** Strip is determined by the first and last non-space: any slice
      `s[i..e]` bounded by whitespace on both sides and by non-spaces at its
      own ends is what `strip()` returns. */
  lemma StripIsTrimmedSlice(s: string, i: nat, e: nat)
    requires i < e <= |s|
    requires !IsSpace(s[i]) && !IsSpace(s[e - 1])
    requires forall k :: 0 <= k < i ==> IsSpace(s[k])
    requires forall k :: e <= k < |s| ==> IsSpace(s[k])
    ensures Strip(s) == s[i..e]
  {
    assert LeadingSpaces(s) == i;
    assert TrailingSpaces(s) == |s| - e;
  }

  /** Whitespace padding on either side never changes what `strip()` keeps,
      so it cannot help a short answer past a length guard. */
  lemma StripIgnoresPadding(pre: string, s: string, post: string)
    requires AllSpace(pre) && AllSpace(post)
    ensures Strip(pre + s + post) == Strip(s)
  {
    var t := pre + s + post;
    var m := Strip(s);
    if m == [] {
      forall k | 0 <= k < |t| ensures IsSpace(t[k]) {
        if k < |pre| { assert t[k] == pre[k]; }
        else if k < |pre| + |s| { assert t[k] == s[k - |pre|]; }
        else { assert t[k] == post[k - |pre| - |s|]; }
      }
    } else {
      var j := LeadingSpaces(s);
      var i, e := |pre| + j, |pre| + j + |m|;
      forall k | 0 <= k < i ensures IsSpace(t[k]) {
        if k < |pre| { assert t[k] == pre[k]; }
        else { assert t[k] == s[k - |pre|]; }
      }
      forall k | e <= k < |t| ensures IsSpace(t[k]) {
        if k < |pre| + |s| { assert t[k] == s[k - |pre|]; }
        else { assert t[k] == post[k - |pre| - |s|]; }
      }
      assert t[i..e] == m by {
        forall k | 0 <= k < |m| ensures t[i + k] == m[k] {
          assert t[i + k] == s[j + k];
        }
      }
      StripIsTrimmedSlice(t, i, e);
    }
  }
}
