/** Searching C strings. */
module Strings {
  import opened Text

  /** `pat` stands at position `j` of the text that ends at `end`. */
  ghost predicate Occurs(s: seq<char>, j: nat, end: nat, pat: string) {
    j + |pat| <= end <= |s| && s[j..j + |pat|] == pat
  }

  /** The position where the text from `i` on ends. */
  function TextEnd(s: seq<char>, i: nat): nat {
    i + |CText(s, i)|
  }

  lemma {:induction false} TextEndBounds(s: seq<char>, i: nat)
    requires i <= |s|
    ensures i <= TextEnd(s, i) <= |s| && Peek(s, TextEnd(s, i)) == NUL
    ensures forall k :: i <= k < TextEnd(s, i) ==> s[k] != NUL
    ensures CText(s, i) == s[i..TextEnd(s, i)]
    decreases |s| - i
  {
    if i < |s| && s[i] != NUL {
      TextEndBounds(s, i + 1);
      assert s[i..TextEnd(s, i)] == [s[i]] + s[i + 1..TextEnd(s, i + 1)];
    }
  }

  lemma {:induction false} TextEndIs(s: seq<char>, i: nat, e: nat)
    requires i <= e <= |s| && (forall k :: i <= k < e ==> s[k] != NUL) && Peek(s, e) == NUL
    ensures TextEnd(s, i) == e
    decreases e - i
  {
    if i < e {
      TextEndIs(s, i + 1, e);
    }
  }

  method StrlenAt(s: seq<char>, i: nat) returns (len: nat)
    ensures len == |CText(s, i)|
  {
    len := 0;
    while Peek(s, i + len) != NUL
      invariant len + |CText(s, i + len)| == |CText(s, i)|
      decreases |s| - len
    {
      len := len + 1;
    }
  }

  /** The stretches agree on `n` characters and differ by `d` at the next one. */
  ghost predicate DifferAt(s: seq<char>, j: nat, pat: string, n: nat, d: int) {
    n < |pat| && j + |pat| <= |s| && s[j..j + n] == pat[..n] && s[j + n] as int - pat[n] as int == d
  }

  /** memcmp of the characters at `j` against `pat`. */
  method Memcmp(s: seq<char>, j: nat, pat: string) returns (ret: int)
    requires j + |pat| <= |s|
    ensures ret == 0 <==> s[j..j + |pat|] == pat
    ensures ret != 0 ==> exists n: nat :: DifferAt(s, j, pat, n, ret)
  {
    var n := 0;
    while n < |pat|
      invariant 0 <= n <= |pat| && s[j..j + n] == pat[..n]
    {
      ret := s[j + n] as int - pat[n] as int;
      if ret != 0 {
        assert s[j..j + |pat|][n] != pat[n];
        assert DifferAt(s, j, pat, n, ret);
        return;
      }
      assert s[j..j + n + 1] == s[j..j + n] + [s[j + n]] && pat[..n + 1] == pat[..n] + [pat[n]];
      n := n + 1;
    }
    ret := 0;
  }

  /** strstr on the text from `i` on: the first occurrence, or -1 for NULL. */
  method Strstr(s: seq<char>, i: nat, pat: string) returns (r: int)
    requires i <= |s|
    ensures r >= 0 ==> r >= i && Occurs(s, r, TextEnd(s, i), pat) && forall k: nat :: i <= k < r ==> !Occurs(s, k, TextEnd(s, i), pat)
    ensures r < 0 ==> r == -1 && forall k: nat :: i <= k ==> !Occurs(s, k, TextEnd(s, i), pat)
  {
    TextEndBounds(s, i);
    if |pat| == 0 {
      return i;
    }
    var l1 := StrlenAt(s, i);
    var p := i;
    while l1 >= |pat|
      invariant i <= p && p + l1 == TextEnd(s, i)
      invariant forall k: nat :: i <= k < p ==> !Occurs(s, k, TextEnd(s, i), pat)
    {
      var ret := Memcmp(s, p, pat);
      l1 := l1 - 1;
      if ret == 0 {
        return p;
      }
      p := p + 1;
    }
    return -1;
  }
}
