/** The stack of report prefixes, kept as one string in a fixed buffer. */
module Report {
  import opened Machine
  import opened Text
  import opened Numbers
  import opened Printf
  import opened Format
  import opened Strings

  const DELIMITER: string := ": "

  /** The stacked prefixes, each followed by the delimiter. */
  function Join(stack: seq<string>): string {
    if stack == [] then "" else Join(stack[..|stack| - 1]) + stack[|stack| - 1] + DELIMITER
  }

  ghost predicate Contains(t: string, pat: string) {
    exists j: nat :: Occurs(t, j, |t|, pat)
  }

  /**
   A prefix that may be pushed: no NUL and no delimiter inside. It may be empty, begin with a space or end with
   ':'.
   */
  ghost predicate Clean(t: string) {
    NUL !in t && !Contains(t, DELIMITER)
  }

  ghost predicate AllClean(stack: seq<string>) {
    forall i :: 0 <= i < |stack| ==> Clean(stack[i])
  }

  lemma {:induction false} JoinHasNoNul(stack: seq<string>)
    requires AllClean(stack)
    ensures NUL !in Join(stack)
  {
    if stack != [] {
      JoinHasNoNul(stack[..|stack| - 1]);
    }
  }

  /** The string of the first `k` prefixes begins the string of them all; the `k`-th prefix and a delimiter follow. */
  lemma {:induction false} JoinPrefix(stack: seq<string>, k: nat)
    requires k < |stack|
    ensures var p := |Join(stack[..k])|;
            && p + |stack[k]| + 2 == |Join(stack[..k + 1])| <= |Join(stack)|
            && Join(stack)[..p] == Join(stack[..k])
            && Join(stack)[p..p + |stack[k]| + 2] == stack[k] + DELIMITER
  {
    var last := |stack| - 1;
    var front := stack[..last];
    assert stack[..k + 1][..k] == stack[..k];
    if k < last {
      assert front[..k] == stack[..k] && front[..k + 1] == stack[..k + 1];
      JoinPrefix(front, k);
    } else {
      assert stack[..k + 1] == stack;
    }
  }

  lemma DelimiterAt(s: seq<char>, j: nat, end: nat)
    requires end <= |s|
    ensures Occurs(s, j, end, DELIMITER) <==> j + 2 <= end && s[j] == ':' && s[j + 1] == ' '
  {
    if j + 2 <= end {
      assert s[j..j + 2] == [s[j], s[j + 1]];
    }
  }

  /** Followed by the delimiter, a clean text has no delimiter before that one. */
  lemma NoneBefore(t: string, m: nat)
    requires Clean(t) && m < |t|
    ensures !((t + DELIMITER)[m] == ':' && (t + DELIMITER)[m + 1] == ' ')
  {
    if m + 1 < |t| {
      DelimiterAt(t, m, |t|);
    }
  }

  /** The first delimiter from the start of the `k`-th prefix on is the one that ends it. */
  lemma DelimiterEndsPrefix(s: seq<char>, stack: seq<string>, k: nat)
    requires k < |stack| && AllClean(stack) && |Join(stack)| <= |s| && s[..|Join(stack)|] == Join(stack)
    ensures var p := |Join(stack[..k])|;
            && p + |stack[k]| + 2 <= |Join(stack)| && Occurs(s, p + |stack[k]|, |Join(stack)|, DELIMITER)
            && forall j: nat :: p <= j < p + |stack[k]| ==> !Occurs(s, j, |Join(stack)|, DELIMITER)
  {
    JoinPrefix(stack, k);
    var p, end := |Join(stack[..k])|, |Join(stack)|;
    var w := stack[k] + DELIMITER;
    SliceOfPrefix(s, end, p, p + |w|);
    FirstDelimiter(s, p, stack[k], end);
  }

  lemma SliceOfPrefix(s: seq<char>, end: nat, p: nat, q: nat)
    requires p <= q <= end <= |s|
    ensures s[..end][p..q] == s[p..q]
  {
  }

  lemma FirstDelimiter(s: seq<char>, p: nat, t: string, end: nat)
    requires Clean(t) && p + |t| + 2 <= end <= |s| && s[p..p + |t| + 2] == t + DELIMITER
    ensures Occurs(s, p + |t|, end, DELIMITER) && forall j: nat :: p <= j < p + |t| ==> !Occurs(s, j, end, DELIMITER)
  {
    var w := t + DELIMITER;
    assert forall i :: 0 <= i < |w| ==> s[p + i] == s[p..p + |t| + 2][i] == w[i];
    assert w[|t|] == ':' && w[|t| + 1] == ' ';
    assert s[p + |t|] == w[|t|] && s[p + (|t| + 1)] == w[|t| + 1];
    DelimiterAt(s, p + |t|, end);
    forall j: nat | p <= j < p + |t|
      ensures !Occurs(s, j, end, DELIMITER)
    {
      DelimiterAt(s, j, end);
      NoneBefore(t, j - p);
      assert s[p + (j - p)] == w[j - p] && s[p + (j - p + 1)] == w[j - p + 1];
    }
  }

  /** The string determines the stack: the prefixes can be told apart whatever they are. */
  lemma {:induction false} UniqueStack(a: seq<string>, b: seq<string>, k: nat)
    requires AllClean(a) && AllClean(b) && Join(a) == Join(b)
    requires k <= |a| && k <= |b| && a[..k] == b[..k]
    ensures a == b
    decreases |a| - k
  {
    assert k == |a| ==> a[..k] == a;
    assert k == |b| ==> b[..k] == b;
    if k < |a| && k < |b| {
      SamePrefix(a, b, k);
      assert a[..k + 1] == a[..k] + [a[k]] && b[..k + 1] == b[..k] + [b[k]];
      UniqueStack(a, b, k + 1);
    } else if k < |a| {
      JoinPrefix(a, k);
    } else if k < |b| {
      JoinPrefix(b, k);
    }
  }

  lemma SameLength(s: string, a: seq<string>, b: seq<string>, k: nat)
    requires AllClean(a) && AllClean(b) && s == Join(a) == Join(b) && k < |a| && k < |b| && a[..k] == b[..k]
    ensures |a[k]| == |b[k]|
  {
    assert s[..|Join(a)|] == s;
    DelimiterEndsPrefix(s, a, k);
    DelimiterEndsPrefix(s, b, k);
  }

  lemma PrefixIsSlice(a: seq<string>, k: nat)
    requires k < |a|
    ensures var p := |Join(a[..k])|;
            p + |a[k]| <= |Join(a)| && Join(a)[p..p + |a[k]|] == a[k]
  {
    JoinPrefix(a, k);
    var p := |Join(a[..k])|;
    assert Join(a)[p..p + |a[k]|] == Join(a)[p..p + |a[k]| + 2][..|a[k]|];
  }

  lemma SamePrefix(a: seq<string>, b: seq<string>, k: nat)
    requires AllClean(a) && AllClean(b) && Join(a) == Join(b) && k < |a| && k < |b| && a[..k] == b[..k]
    ensures a[k] == b[k]
  {
    SameLength(Join(a), a, b, k);
    PrefixIsSlice(a, k);
    PrefixIsSlice(b, k);
  }

  // ----- what a pop does to any text -----

  predicate DelimAt(s: string, j: int) {
    0 <= j && j + 2 <= |s| && s[j] == ':' && s[j + 1] == ' '
  }

  /** The texts a pop can deal with. */
  predicate Closed(s: string) {
    s == "" || DelimAt(s, |s| - 2)
  }

  /** The last prefix of the text starts at `p`: a delimiter ends there or the text starts there, and the next one ends the text. */
  ghost predicate LastAt(s: string, p: nat) {
    && DelimAt(s, |s| - 2) && p <= |s| - 2 && (p == 0 || DelimAt(s, p - 2))
    && forall j :: p <= j < |s| - 2 ==> !DelimAt(s, j)
  }

  lemma LastIsUnique(s: string, p: nat, q: nat)
    requires LastAt(s, p) && LastAt(s, q)
    ensures p == q
  {
  }

  lemma JoinIsClosed(stack: seq<string>)
    ensures Closed(Join(stack))
  {
    if stack != [] {
      var s := Join(stack);
      assert s[|s| - 2..] == DELIMITER;
      assert s[|s| - 2] == s[|s| - 2..][0] && s[|s| - 1] == s[|s| - 2..][1];
    }
  }

  lemma LastOfStack(stack: seq<string>)
    requires stack != [] && AllClean(stack)
    ensures LastAt(Join(stack), |Join(stack[..|stack| - 1])|)
  {
    var n, s := |stack| - 1, Join(stack);
    var below := Join(stack[..n]);
    JoinIsClosed(stack);
    JoinIsClosed(stack[..n]);
    JoinPrefix(stack, n);
    assert stack[..n + 1] == stack && s[..|s|] == s;
    assert below != "" ==> s[|below| - 2] == s[..|below|][|below| - 2] && s[|below| - 1] == s[..|below|][|below| - 1];
    DelimiterEndsPrefix(s, stack, n);
    forall j | |below| <= j < |s| - 2 ensures !DelimAt(s, j) {
      DelimiterAt(s, j, |s|);
    }
  }

  // ----- what a push does for any text -----

  /** The length after a text is appended at `j`: an unsigned 32-bit sum. */
  function LenAfter(j: nat, t: string): nat {
    (j + |t|) % TWO32
  }

  /** What can be read of a text appended at `j`: what fits of it, up to its first NUL. */
  function Shown(j: nat, t: string): string
    requires j < 256
  {
    CText(t[..Min(|t|, 255 - j)])
  }

  /** The assertions of report_prefix_pushf. */
  ghost predicate Accepts(j: nat, t: string)
    requires j < 256
  {
    LenAfter(j, t) + 2 < 256 && !Contains(Shown(j, t), DELIMITER)
  }

  /**
   A text is accepted at `j` exactly when the 32-bit sum of lengths leaves room for the delimiter in 256 bytes, and no ": "
   is in the part of it that is stored and comes before its first NUL.
   */
  lemma AcceptsIff(j: nat, t: string)
    requires j < 256
    ensures Accepts(j, t) <==>
            && (j + |t|) % 0x1_0000_0000 + 2 < 256
            && forall k: nat :: k + 1 < |t| && j + k + 1 < 255 && t[k] == ':' && t[k + 1] == ' ' ==> NUL in t[..k]
  {
    forall k: nat
      ensures Occurs(Shown(j, t), k, |Shown(j, t)|, DELIMITER) <==> ShowsDelimiter(j, t, k)
    {
      ShownDelimiter(j, t, k);
    }
    if !Contains(Shown(j, t), DELIMITER) {
      forall k: nat | k + 1 < |t| && j + k + 1 < 255 && t[k] == ':' && t[k + 1] == ' ' ensures NUL in t[..k] {
        assert !Occurs(Shown(j, t), k, |Shown(j, t)|, DELIMITER);
      }
    }
  }

  ghost predicate ShowsDelimiter(j: nat, t: string, k: nat) {
    k + 1 < |t| && j + k + 1 < 255 && t[k] == ':' && t[k + 1] == ' ' && NUL !in t[..k]
  }

  lemma ShownDelimiter(j: nat, t: string, k: nat)
    requires j < 256
    ensures Occurs(Shown(j, t), k, |Shown(j, t)|, DELIMITER) <==> ShowsDelimiter(j, t, k)
  {
    var part, u := t[..Min(|t|, 255 - j)], Shown(j, t);
    TextEndBounds(part, 0);
    assert u == part[..|u|];
    DelimiterAt(u, k, |u|);
    if k + 2 <= |u| {
      assert forall m :: 0 <= m < k ==> t[..k][m] == part[m];
    } else if k + 2 <= |part| && t[k] == ':' && t[k + 1] == ' ' {
      assert part[|u|] == NUL && t[..k][|u|] == NUL;
    }
  }

  /** Without a NUL and short of 2^32 characters: it must fit in 256 bytes with its delimiter and hold no ": ". */
  lemma PlainPrefixIsAccepted(j: nat, t: string)
    requires j < 256 && NUL !in t && j + |t| < 0x1_0000_0000
    ensures Accepts(j, t) <==> j + |t| + 2 < 256 && forall k: nat :: k + 1 < |t| ==> !(t[k] == ':' && t[k + 1] == ' ')
  {
    AcceptsIff(j, t);
    DivModUnique(j + |t|, 0x1_0000_0000, 0, j + |t|);
  }

  /** The buffer after an accepted push. */
  ghost function After(b: seq<char>, j: nat, t: string): (r: seq<char>)
    requires |b| == 256 && j < 256 && LenAfter(j, t) + 2 < 256
    ensures |r| == 256
  {
    Stored(Stored(b, j, 255 - j, t), LenAfter(j, t), 255 - LenAfter(j, t), DELIMITER)
  }

  /** The text and its delimiter fit and are readable. */
  ghost predicate Readable(j: nat, t: string) {
    NUL !in t && j + |t| + 2 < 256
  }

  lemma AfterFits(b: seq<char>, joined: string, t: string)
    requires |b| == 256 && |joined| + |t| + 2 < 256 && b[..|joined|] == joined
    ensures LenAfter(|joined|, t) == |joined| + |t|
    ensures var w := joined + t + DELIMITER;
            After(b, |joined|, t)[..|w|] == w && After(b, |joined|, t)[|w|] == NUL
  {
    var j := |joined|;
    assert t[..|t|] == t && DELIMITER[..2] == DELIMITER;
    var one := Stored(b, j, 255 - j, t);
    assert one[..j + |t|] == joined + t;
  }

  /** The buffer reads as the new stack if and only if the pushed text holds no NUL and fits. */
  lemma ReadsBackIffReadable(b: seq<char>, joined: string, t: string)
    requires |b| == 256 && |joined| < 256 && NUL !in joined && b[..|joined|] == joined && LenAfter(|joined|, t) + 2 < 256
    ensures CText(After(b, |joined|, t)) == joined + t + ": " <==> NUL !in t && |joined| + |t| + 2 < 256
  {
    var j, w := |joined|, joined + t + DELIMITER;
    var r := After(b, j, t);
    TextEndBounds(r, 0);
    if j + |t| + 2 < 256 {
      AfterFits(b, joined, t);
      if NUL in t {
        var i :| 0 <= i < |t| && t[i] == NUL;
        assert r[j + i] == r[..|w|][j + i] == NUL;
      } else {
        CTextOf(r, w);
      }
    } else {
      assert r[LenAfter(j, t) + 2] == NUL;
    }
  }

  /** What can be read after a text with a NUL in it was pushed: neither the rest of it nor its delimiter. */
  lemma NulHidesTheRest(b: seq<char>, joined: string, t: string)
    requires |b| == 256 && |joined| + |t| + 2 < 256 && NUL !in joined && b[..|joined|] == joined && NUL in t
    ensures CText(After(b, |joined|, t)) == joined + CText(t)
  {
    var w, e := joined + t + DELIMITER, |joined| + TextEnd(t, 0);
    AfterFits(b, joined, t);
    NulAt(joined, t, w, e);
    ReadsUpTo(After(b, |joined|, t), w, e);
  }

  lemma NulAt(joined: string, t: string, w: string, e: nat)
    requires w == joined + t + DELIMITER && e == |joined| + TextEnd(t, 0) && NUL !in joined && NUL in t
    ensures e < |w| && w[e] == NUL && w[..e] == joined + CText(t) && forall k :: 0 <= k < e ==> w[k] != NUL
  {
    TextEndBounds(t, 0);
    FirstNulInside(t);
  }

  lemma ReadsUpTo(r: seq<char>, w: string, e: nat)
    requires |w| <= |r| && r[..|w|] == w && e < |w| && w[e] == NUL && forall k :: 0 <= k < e ==> w[k] != NUL
    ensures CText(r) == w[..e]
  {
    assert forall k :: 0 <= k <= e ==> r[k] == w[k];
    TextEndIs(r, 0, e);
    TextEndBounds(r, 0);
    assert r[0..e] == w[..e];
  }

  /** Text without a delimiter behind a closed one leaves it closed only if it is empty. */
  lemma ClosedAfter(joined: string, u: string)
    requires Closed(joined) && !Contains(u, DELIMITER)
    ensures Closed(joined + u) <==> u == ""
  {
    assert joined + "" == joined;
    if |u| >= 2 {
      DelimiterAt(u, |u| - 2, |u|);
    }
  }

  lemma FirstNulInside(t: string)
    requires NUL in t
    ensures TextEnd(t, 0) < |t|
  {
    TextEndBounds(t, 0);
    var i :| 0 <= i < |t| && t[i] == NUL;
  }

  /** A formatted character 0 puts a NUL into a prefix. */
  lemma PrefixWithNul()
    ensures Fine("a%cb", 0, [Num(0)]) && Render("a%cb", 0, [Num(0)]) == ['a', NUL, 'b']
  {
    var fmt, args := "a%cb", [Num(0)];
    assert Render(fmt, 4, []) == "" && Fine(fmt, 4, []);
    assert Render(fmt, 3, []) == "b" && Fine(fmt, 3, []);
    PrintStep(fmt, 2, PLAIN, 0, args);
    assert CharOf(0) == NUL;
  }

  /** A text of 2^32 characters is accepted on an empty stack: its length is counted as 0. */
  lemma HugeTextIsAccepted(t: string)
    requires t == Repeat('a', TWO32)
    ensures Accepts(0, t) && !Readable(0, t)
  {
    RepeatAt('a', TWO32);
    var u := Shown(0, t);
    TextEndBounds(t[..255], 0);
    forall k: nat ensures !Occurs(u, k, |u|, DELIMITER) {
      DelimiterAt(u, k, |u|);
    }
  }

  /** How a push ends: the prefix is on the stack's string, an assertion failed, or the formatter left its tables. */
  datatype PushResult = Pushed | Refused | Wild

  class Reporter {
    const prefixes: array<char>
    ghost var stack: seq<string>

    /** The buffer holds a C string, whatever it is. */
    ghost predicate Terminated()
      reads this, prefixes
    {
      prefixes.Length == 256 && NUL in prefixes[..]
    }

    ghost predicate Valid()
      reads this, prefixes
    {
      && prefixes.Length == 256 && AllClean(stack)
      && |Join(stack)| < 256 && prefixes[..|Join(stack)|] == Join(stack) && prefixes[|Join(stack)|] == NUL
    }

    constructor ()
      ensures Valid() && stack == [] && fresh(prefixes)
    {
      prefixes := new char[256](_ => NUL);
      stack := [];
    }

    /** The buffer reads as the joined stack. */
    lemma Reads()
      requires Valid()
      ensures Terminated() && CText(prefixes[..]) == Join(stack) && NUL !in Join(stack)
    {
      JoinHasNoNul(stack);
      CTextOf(prefixes[..], Join(stack));
      assert prefixes[..][|Join(stack)|] == NUL;
    }

    /** `strstr(p, ": ")` for a position in the text: the first delimiter from there on, or -1. */
    method FindDelimiter(p: nat, ghost s: string) returns (d: int)
      requires Terminated() && s == CText(prefixes[..]) && p <= |s|
      ensures d < 0 ==> forall j :: p <= j ==> !DelimAt(s, j)
      ensures d >= 0 ==> p <= d && DelimAt(s, d) && forall j :: p <= j < d ==> !DelimAt(s, j)
    {
      ghost var b := prefixes[..];
      TextEndBounds(b, 0);
      TextEndIs(b, p, |s|);
      d := Strstr(prefixes[..], p, DELIMITER);
      forall j: nat ensures Occurs(b, j, |s|, DELIMITER) <==> DelimAt(s, j) {
        DelimiterAt(b, j, |s|);
      }
    }

    /** The loop of report_prefix_pop: the start of the last prefix; false when strstr finds nothing and its NULL is used. */
    method LastPrefix(ghost s: string) returns (ok: bool, p: nat)
      requires Terminated() && s == CText(prefixes[..]) && s != ""
      ensures ok <==> Closed(s)
      ensures ok ==> LastAt(s, p)
    {
      ghost var b := prefixes[..];
      TextEndBounds(b, 0);
      FirstNulInside(b);
      p := 0;
      var q := FindDelimiter(p, s);
      if q < 0 {
        return false, p;
      }
      q := q + 2;
      while prefixes[q] != NUL
        invariant p + 2 <= q <= |s| && (p == 0 || DelimAt(s, p - 2)) && DelimAt(s, q - 2)
        invariant forall j :: p <= j < q - 2 ==> !DelimAt(s, j)
        decreases |s| - q
      {
        p := q;
        q := FindDelimiter(p, s);
        if q < 0 {
          assert s[p - 1] == ' ';
          return false, p;
        }
        q := q + 2;
      }
      ok := true;
    }

    /**
     report_prefix_pop on any text: it ends well exactly for a text that is empty or ends with a delimiter, and then takes
     away the text from the last prefix on. From the string of a stack it takes exactly the prefix pushed last.
     */
    method Pop() returns (ok: bool, ghost p: nat)
      requires Terminated()
      modifies this, prefixes
      ensures Terminated() && (ok <==> Closed(old(CText(prefixes[..]))))
      ensures !ok || old(CText(prefixes[..])) == "" ==> prefixes[..] == old(prefixes[..])
      ensures ok && old(CText(prefixes[..])) != "" ==>
                LastAt(old(CText(prefixes[..])), p) && CText(prefixes[..]) == old(CText(prefixes[..]))[..p]
      ensures old(Valid()) ==>
                && ok && Valid() && stack == (if old(stack) == [] then [] else old(stack)[..|old(stack)| - 1])
                && CText(prefixes[..]) == Join(stack)
    {
      ghost var s := CText(prefixes[..]);
      ghost var valid := Valid();
      TextEndBounds(prefixes[..], 0);
      FirstNulInside(prefixes[..]);
      if valid {
        Reads();
        JoinIsClosed(stack);
      }
      p := 0;
      if prefixes[0] == NUL {
        return true, 0;
      }
      var at;
      ok, at := LastPrefix(s);
      p := at;
      if ok {
        ghost var was := stack;
        CutAt(at, s);
        if valid {
          stack := stack[..|stack| - 1];
          Popped(was, s, at);
        }
      }
    }

    /** The store that ends a pop. */
    method CutAt(p: nat, ghost s: string)
      requires Terminated() && s == CText(prefixes[..]) && p <= |s|
      modifies prefixes
      ensures Terminated() && CText(prefixes[..]) == s[..p] && p < 256 && prefixes[..p] == s[..p] && prefixes[p] == NUL
    {
      TextEndBounds(prefixes[..], 0);
      FirstNulInside(prefixes[..]);
      prefixes[p] := NUL;
      ghost var b := prefixes[..];
      assert b[p] == NUL;
      assert forall k :: 0 <= k < p ==> b[k] == s[k];
      TextEndIs(b, 0, p);
      TextEndBounds(b, 0);
      assert b[0..p] == s[..p];
    }

    /** vsnprintf at the end of the text so far; `len` is an unsigned 32-bit number. */
    method Append(len: nat, fmt: string, args: seq<Arg>) returns (ok: bool, len': nat)
      requires len < prefixes.Length == 256
      modifies prefixes
      ensures ok <==> Fine(fmt, 0, args)
      ensures ok ==> len' == LenAfter(len, Render(fmt, 0, args))
      ensures ok ==> prefixes[..] == Stored(old(prefixes[..]), len, 255 - len, Render(fmt, 0, args))
    {
      var n;
      ok, n := Vsnprintf(prefixes, len, 256 - len, fmt, args);
      len' := (len + n) % TWO32;
      if ok {
        var q := SignedQuotient(|Render(fmt, 0, args)|, TWO32);
        ModShift(len + |Render(fmt, 0, args)|, q, TWO32);
      }
    }

    /** The assertion that what can be read from `start` on has no delimiter in it. */
    method NoDelimiter(start: nat) returns (ok: bool)
      requires Terminated() && start < 256
      ensures ok <==> !Contains(CText(prefixes[..], start), DELIMITER)
    {
      ghost var s, t := prefixes[..], CText(prefixes[..], start);
      TextEndBounds(s, start);
      var d := Strstr(prefixes[..], start, DELIMITER);
      ok := d < 0;
      if d >= 0 {
        OccursShifted(s, start, t, d - start);
      } else {
        forall j: nat
          ensures !Occurs(t, j, |t|, DELIMITER)
        {
          OccursShifted(s, start, t, j);
          assert !Occurs(s, start + j, TextEnd(s, start), DELIMITER);
        }
      }
    }

    /**
     report_prefix_pushf for every format and argument list. The string reads as the stack with the new prefix on it if and
     only if the text holds no NUL and fits.
     */
    method Push(fmt: string, args: seq<Arg>) returns (r: PushResult)
      requires Valid()
      modifies this, prefixes
      ensures r.Wild? <==> !Fine(fmt, 0, args)
      ensures r.Pushed? <==> Fine(fmt, 0, args) && Accepts(|Join(old(stack))|, Render(fmt, 0, args))
      ensures r.Pushed? ==> Terminated() && prefixes[..] == After(old(prefixes[..]), |Join(old(stack))|, Render(fmt, 0, args))
      ensures r.Pushed? ==> (CText(prefixes[..]) == Join(old(stack) + [Render(fmt, 0, args)])
                             <==> Readable(|Join(old(stack))|, Render(fmt, 0, args)))
      ensures r.Pushed? && Readable(|Join(old(stack))|, Render(fmt, 0, args)) ==>
                Valid() && stack == old(stack) + [Render(fmt, 0, args)]
    {
      ghost var t, joined, b := Render(fmt, 0, args), Join(stack), prefixes[..];
      Reads();
      var start := StrlenAt(prefixes[..], 0);
      r := PushAt(start, fmt, args);
      if r.Pushed? {
        ReadsBackIffReadable(b, joined, t);
        JoinSnoc(stack, t);
        if Readable(start, t) {
          StackGrows(b, stack, t);
          stack := stack + [t];
        }
      }
    }

    /** The body of report_prefix_pushf from the length of the string on. */
    method PushAt(start: nat, fmt: string, args: seq<Arg>) returns (r: PushResult)
      requires start < prefixes.Length == 256
      modifies prefixes
      ensures r.Wild? <==> !Fine(fmt, 0, args)
      ensures r.Pushed? <==> Fine(fmt, 0, args) && Accepts(start, Render(fmt, 0, args))
      ensures r.Pushed? ==> Terminated() && prefixes[..] == After(old(prefixes[..]), start, Render(fmt, 0, args))
    {
      ghost var t, b := Render(fmt, 0, args), prefixes[..];
      var ok, len := Append(start, fmt, args);
      if !ok {
        return PushResult.Wild;
      }
      if len >= 256 {
        return Refused;
      }
      ShownIs(b, start, t);
      ok := NoDelimiter(start);
      if !ok {
        return Refused;
      }
      RenderPlain(DELIMITER, 0, []);
      DelimiterLength(len);
      ok, len := Append(len, DELIMITER, []);
      if len >= 256 {
        return Refused;
      }
      AfterEnds(b, start, t);
      r := Pushed;
    }
  }

  lemma DelimiterLength(len: nat)
    requires len < 256
    ensures LenAfter(len, DELIMITER) == len + 2
  {
  }

  lemma AfterEnds(b: seq<char>, j: nat, t: string)
    requires |b| == 256 && j < 256 && LenAfter(j, t) + 2 < 256
    ensures NUL in After(b, j, t)
  {
    assert After(b, j, t)[LenAfter(j, t) + 2] == NUL;
  }

  /**
   A push that is accepted and fits is undone by the pop after it if and only if its text holds no NUL, but for a text that
   starts with a NUL on an empty stack, where neither call does anything. With a NUL further on the pop uses a NULL.
   */
  method PushThenPop(rep: Reporter, fmt: string, args: seq<Arg>) returns (r: PushResult, ok: bool)
    requires rep.Valid()
    modifies rep, rep.prefixes
    ensures r.Pushed? <==> Fine(fmt, 0, args) && Accepts(|Join(old(rep.stack))|, Render(fmt, 0, args))
    ensures var t, below := Render(fmt, 0, args), Join(old(rep.stack));
            r.Pushed? && |below| + |t| + 2 < 256 ==>
              && (ok && CText(rep.prefixes[..]) == below <==> NUL !in t || (below == "" && t[0] == NUL))
              && (!ok <==> NUL in t && t[0] != NUL)
  {
    ghost var t, below, b := Render(fmt, 0, args), Join(rep.stack), rep.prefixes[..];
    rep.Reads();
    JoinIsClosed(rep.stack);
    r := rep.Push(fmt, args);
    ok := true;
    if r.Pushed? {
      ghost var s := CText(rep.prefixes[..]);
      if |below| + |t| + 2 < 256 && NUL in t {
        NulHidesTheRest(b, below, t);
        ShownToNul(|below|, t);
        ClosedAfter(below, CText(t));
      } else if |below| + |t| + 2 < 256 {
        JoinSnoc(old(rep.stack), t);
      }
      ghost var p;
      ok, p := rep.Pop();
    }
  }

  lemma ShownToNul(j: nat, t: string)
    requires j + |t| + 2 < 256 && NUL in t
    ensures Shown(j, t) == CText(t) && (CText(t) == "" <==> t[0] == NUL)
  {
    assert t[..|t|] == t;
  }

  lemma JoinSnoc(stack: seq<string>, t: string)
    ensures Join(stack + [t]) == Join(stack) + t + DELIMITER
  {
    assert (stack + [t])[..|stack|] == stack;
  }

  lemma StackGrows(b: seq<char>, stack: seq<string>, t: string)
    requires |b| == 256 && AllClean(stack) && |Join(stack)| < 256 && b[..|Join(stack)|] == Join(stack)
    requires Readable(|Join(stack)|, t) && Accepts(|Join(stack)|, t)
    ensures var more, r := stack + [t], After(b, |Join(stack)|, t);
            AllClean(more) && |Join(more)| < 256 && r[..|Join(more)|] == Join(more) && r[|Join(more)|] == NUL
  {
    AfterFits(b, Join(stack), t);
    ShownWhole(|Join(stack)|, t);
    JoinSnoc(stack, t);
  }

  lemma ShownWhole(j: nat, t: string)
    requires Readable(j, t)
    ensures Shown(j, t) == t
  {
    assert t[..|t|] == t;
    TextEndIs(t, 0, |t|);
    TextEndBounds(t, 0);
  }

  /** What strstr reads after the text was appended. */
  lemma ShownIs(b: seq<char>, j: nat, t: string)
    requires |b| == 256 && j < 256
    ensures NUL in Stored(b, j, 255 - j, t) && CText(Stored(b, j, 255 - j, t), j) == Shown(j, t)
  {
    var k := Min(|t|, 255 - j);
    var s := Stored(b, j, 255 - j, t);
    assert s[j + k] == NUL;
    assert s[j..j + k] == t[..k];
    ReadsFrom(s, j, t[..k], 0);
  }

  lemma {:induction false} ReadsFrom(s: seq<char>, j: nat, u: string, i: nat)
    requires j + |u| < |s| && s[j..j + |u|] == u && s[j + |u|] == NUL && i <= |u|
    ensures CText(s, j + i) == CText(u, i)
    decreases |u| - i
  {
    if i < |u| {
      assert s[j + i] == s[j..j + |u|][i] == u[i];
      ReadsFrom(s, j, u, i + 1);
    }
  }

  /** What a pop leaves of the string of a stack. */
  lemma Popped(stack: seq<string>, s: string, p: nat)
    requires stack != [] && AllClean(stack) && s == Join(stack) && LastAt(s, p)
    ensures p == |Join(stack[..|stack| - 1])| && s[..p] == Join(stack[..|stack| - 1])
  {
    LastOfStack(stack);
    LastIsUnique(s, p, |Join(stack[..|stack| - 1])|);
    JoinPrefix(stack, |stack| - 1);
  }

  lemma OccursShifted(s: seq<char>, start: nat, t: string, j: nat)
    requires start + |t| <= |s| && s[start..start + |t|] == t
    ensures Occurs(t, j, |t|, DELIMITER) <==> Occurs(s, start + j, start + |t|, DELIMITER)
  {
    DelimiterAt(t, j, |t|);
    DelimiterAt(s, start + j, start + |t|);
    if j + 2 <= |t| {
      assert t[j] == s[start..start + |t|][j] && t[j + 1] == s[start..start + |t|][j + 1];
    }
  }
}
