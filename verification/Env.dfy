/** The environment file parser. */
module Env {
  import opened Text
  import opened Strings

  predicate IsBlank(c: char) {
    c == ' ' || c == '\t'
  }

  predicate IsAlpha(c: char) {
    'A' <= c <= 'Z' || 'a' <= c <= 'z' || c == '_'
  }

  predicate IsAlnum(c: char) {
    IsAlpha(c) || '0' <= c <= '9'
  }

  // ---- what the lines of a text are ----

  /** Where the line that holds position `i` ends: at its newline, or with the text. */
  function LineEnd(t: string, i: nat): (e: nat)
    requires i <= |t|
    ensures i <= e <= |t|
    ensures e < |t| ==> t[e] == '\n'
    decreases |t| - i
  {
    if i < |t| && t[i] != '\n' then LineEnd(t, i + 1) else i
  }

  /** The first position from `i` on that does not continue an identifier. */
  function NameEnd(t: string, i: nat): (k: nat)
    requires i <= |t|
    ensures i <= k <= |t| && (k < |t| ==> !IsAlnum(t[k]))
    decreases |t| - i
  {
    if i < |t| && IsAlnum(t[i]) then NameEnd(t, i + 1) else i
  }

  /** The first position from `i` on that is not blank. */
  function Ink(t: string, i: nat): (p: nat)
    requires i <= |t|
    ensures i <= p <= |t| && (p < |t| ==> !IsBlank(t[p]))
    decreases |t| - i
  {
    if i < |t| && IsBlank(t[i]) then Ink(t, i + 1) else i
  }

  /** The line at `i` is an identifier, then '=', then anything. */
  predicate EntryAt(t: string, i: nat) {
    i < |t| && IsAlpha(t[i]) && NameEnd(t, i) < |t| && t[NameEnd(t, i)] == '='
  }

  /** The line at `i` is a comment, or has no ink and ends with a newline. */
  predicate QuietAt(t: string, i: nat) {
    i < |t| && Ink(t, i) < |t| && (t[Ink(t, i)] == '#' || t[Ink(t, i)] == '\n')
  }

  /** The strings recorded and the complaints printed, both in order. */
  datatype Outcome = Outcome(found: seq<string>, shown: seq<string>)

  /** What the line at `i` adds. */
  function Judge(t: string, i: nat, o: Outcome): Outcome
    requires i <= |t|
  {
    if EntryAt(t, i) then o.(found := o.found + [t[i..LineEnd(t, i)]])
    else if QuietAt(t, i) then o
    else o.(shown := o.shown + [t[i..LineEnd(t, i)]])
  }

  /** The lines of a text from line start `i` on, one after another. */
  function Lines(t: string, i: nat, o: Outcome): (r: Outcome)
    requires i <= |t|
    ensures |o.found| <= |r.found|
    decreases |t| - i
  {
    if i == |t| then o
    else if LineEnd(t, i) < |t| then Lines(t, LineEnd(t, i) + 1, Judge(t, i, o))
    else Judge(t, i, o)
  }

  /** NUL-separated strings from `i` on; an empty one ends the list, the end of the region ends the last. */
  function Packed(t: string, i: nat, o: Outcome): (r: Outcome)
    requires i <= |t|
    ensures |o.found| <= |r.found|
    decreases |t| - i
  {
    if i == |t| || t[i] == NUL then o
    else
      var e := TextEnd(t, i);
      TextEndBounds(t, i);
      var next := o.(found := o.found + [t[i..e]]);
      if e < |t| then Packed(t, e + 1, next) else next
  }

  /** What the region from `i` on adds: lines when its only NUL is the one at its end, packed strings otherwise. */
  function Parse(newline: bool, t: string, i: nat, o: Outcome): (r: Outcome)
    ensures |o.found| <= |r.found|
  {
    if i >= |t| then o else if newline then Lines(t, i, o) else Packed(t, i, o)
  }

  // ---- the same, said of whole lines ----

  ghost predicate IsEntry(line: string) {
    exists k :: NameEndsAt(line, k)
  }

  ghost predicate NameEndsAt(line: string, k: int) {
    && 0 < k < |line| && line[k] == '='
    && ('A' <= line[0] <= 'Z' || 'a' <= line[0] <= 'z' || line[0] == '_')
    && forall j :: 0 < j < k ==> 'A' <= line[j] <= 'Z' || 'a' <= line[j] <= 'z' || line[j] == '_' || '0' <= line[j] <= '9'
  }

  ghost predicate IsComment(line: string) {
    exists k :: CommentAt(line, k)
  }

  ghost predicate CommentAt(line: string, k: int) {
    0 <= k < |line| && line[k] == '#' && AllBlank(line[..k])
  }

  predicate AllBlank(line: string) {
    forall j :: 0 <= j < |line| ==> line[j] == ' ' || line[j] == '\t'
  }

  lemma {:induction false} NoNewlineInside(t: string, i: nat)
    requires i <= |t|
    ensures forall k :: i <= k < LineEnd(t, i) ==> t[k] != '\n'
    decreases |t| - i
  {
    if i < |t| && t[i] != '\n' {
      NoNewlineInside(t, i + 1);
    }
  }

  lemma {:induction false} NameInside(t: string, i: nat)
    requires i <= |t|
    ensures forall k :: i <= k < NameEnd(t, i) ==> IsAlnum(t[k])
    ensures NameEnd(t, i) <= LineEnd(t, i)
    decreases |t| - i
  {
    if i < |t| && IsAlnum(t[i]) {
      NameInside(t, i + 1);
    }
  }

  lemma {:induction false} BlanksInside(t: string, i: nat)
    requires i <= |t|
    ensures forall k :: i <= k < Ink(t, i) ==> IsBlank(t[k])
    ensures Ink(t, i) <= LineEnd(t, i)
    decreases |t| - i
  {
    if i < |t| && IsBlank(t[i]) {
      BlanksInside(t, i + 1);
    }
  }

  /** An entry is a line of the form identifier '=' anything. */
  lemma EntryMeaning(t: string, i: nat)
    requires i <= |t|
    ensures EntryAt(t, i) <==> IsEntry(t[i..LineEnd(t, i)])
  {
    var e := LineEnd(t, i);
    var line := t[i..e];
    NoNewlineInside(t, i);
    NameInside(t, i);
    assert forall k :: 0 <= k < e - i ==> line[k] == t[i + k];
    if EntryAt(t, i) {
      assert NameEndsAt(line, NameEnd(t, i) - i);
    }
    if IsEntry(line) {
      var k :| NameEndsAt(line, k);
      NameEndIs(t, i, i + k);
    }
  }

  lemma {:induction false} NameEndIs(t: string, i: nat, k: nat)
    requires i <= k < |t| && !IsAlnum(t[k]) && forall j :: i <= j < k ==> IsAlnum(t[j])
    ensures NameEnd(t, i) == k
    decreases k - i
  {
    if i < k {
      NameEndIs(t, i + 1, k);
    }
  }

  /** A line passed over in silence is a comment after blanks, or blanks ended by a newline. */
  lemma QuietMeaning(t: string, i: nat)
    requires i < |t|
    ensures var e := LineEnd(t, i);
            QuietAt(t, i) <==> IsComment(t[i..e]) || (e < |t| && AllBlank(t[i..e]))
  {
    var e, p := LineEnd(t, i), Ink(t, i);
    var line := t[i..e];
    NoNewlineInside(t, i);
    BlanksInside(t, i);
    assert forall k :: 0 <= k < e - i ==> line[k] == t[i + k];
    if QuietAt(t, i) && t[p] == '#' {
      assert CommentAt(line, p - i);
    }
    if IsComment(line) {
      var k :| CommentAt(line, k);
      assert forall j :: 0 <= j < k ==> line[j] == line[..k][j];
    }
    if p < e {
      assert line[p - i] == t[p];
    }
  }

  // ---- the file format is invertible ----

  function Unlines(lines: seq<string>): string {
    if lines == [] then "" else lines[0] + "\n" + Unlines(lines[1..])
  }

  lemma {:induction false} LineEndIs(t: string, i: nat, e: nat)
    requires i <= e < |t| && t[e] == '\n' && forall k :: i <= k < e ==> t[k] != '\n'
    ensures LineEnd(t, i) == e
    decreases e - i
  {
    if i < e {
      LineEndIs(t, i + 1, e);
    }
  }

  lemma FirstLine(t: string, i: nat, line: string, rest: string)
    requires i <= |t| && t[i..] == line + "\n" + rest
    ensures i + |line| < |t| && t[i..i + |line|] == line && t[i + |line|] == '\n' && t[i + |line| + 1..] == rest
  {
    var e := i + |line|;
    assert t[i..e] == t[i..][..|line|] == line;
    assert t[e..] == t[i..][|line|..] == "\n" + rest;
    assert t[e + 1..] == t[e..][1..];
  }

  // ---- what a file of lines means ----

  ghost predicate NoNewlines(lines: seq<string>) {
    forall k :: 0 <= k < |lines| ==> '\n' !in lines[k]
  }

  ghost function EntryOf(line: string): seq<string> {
    if IsEntry(line) then [line] else []
  }

  ghost function Entries(lines: seq<string>): seq<string> {
    if lines == [] then [] else EntryOf(lines[0]) + Entries(lines[1..])
  }

  ghost function ComplaintOf(line: string): seq<string> {
    if IsEntry(line) || IsComment(line) || AllBlank(line) then [] else [line]
  }

  /** The lines that are neither entry nor comment nor blank. */
  ghost function Complaints(lines: seq<string>): seq<string> {
    if lines == [] then [] else ComplaintOf(lines[0]) + Complaints(lines[1..])
  }

  /** A last line without a newline: one of blanks is not passed over in silence. */
  ghost function LastComplaint(last: string): seq<string> {
    if last == "" || IsEntry(last) || IsComment(last) then [] else [last]
  }

  lemma OneLine(t: string, i: nat, e: nat, o: Outcome)
    requires i <= e < |t| && '\n' !in t[i..e] && t[e] == '\n'
    ensures var line := t[i..e];
            LineEnd(t, i) == e && Judge(t, i, o) == AddLine(o, line)
  {
    assert forall k :: i <= k < e ==> t[k] == t[i..e][k - i];
    LineEndIs(t, i, e);
    EntryMeaning(t, i);
    QuietMeaning(t, i);
  }

  lemma {:induction false} NoLineEnd(t: string, i: nat)
    requires i <= |t| && forall k :: i <= k < |t| ==> t[k] != '\n'
    ensures LineEnd(t, i) == |t|
    decreases |t| - i
  {
    if i < |t| {
      NoLineEnd(t, i + 1);
    }
  }

  lemma LastLine(t: string, i: nat, last: string, o: Outcome)
    requires i <= |t| && t[i..] == last && '\n' !in last
    ensures Lines(t, i, o) == AddLast(o, last)
  {
    assert forall k :: i <= k < |t| ==> t[k] == last[k - i];
    NoLineEnd(t, i);
    assert t[i..|t|] == last;
    if i < |t| {
      EntryMeaning(t, i);
      QuietMeaning(t, i);
    }
  }

  /** What the lines and the last one add to an outcome. */
  ghost function Adds(o: Outcome, lines: seq<string>, last: string): Outcome {
    Outcome(o.found + Entries(lines) + EntryOf(last), o.shown + Complaints(lines) + LastComplaint(last))
  }

  /** The same, line by line. */
  ghost function AddLines(o: Outcome, lines: seq<string>, last: string): Outcome
    decreases |lines|
  {
    if lines == [] then AddLast(o, last) else AddLines(AddLine(o, lines[0]), lines[1..], last)
  }

  ghost function AddLine(o: Outcome, line: string): Outcome {
    Outcome(o.found + EntryOf(line), o.shown + ComplaintOf(line))
  }

  ghost function AddLast(o: Outcome, last: string): Outcome {
    Outcome(o.found + EntryOf(last), o.shown + LastComplaint(last))
  }

  lemma AddsNothing(o: Outcome, last: string)
    ensures Adds(o, [], last) == AddLast(o, last)
  {
    assert o.found + [] == o.found && o.shown + [] == o.shown;
  }

  lemma AddsFirst(o: Outcome, lines: seq<string>, last: string)
    requires lines != []
    ensures Adds(AddLine(o, lines[0]), lines[1..], last) == Adds(o, lines, last)
  {
    Rejoin(o.found, EntryOf(lines[0]), Entries(lines[1..]));
    Rejoin(o.shown, ComplaintOf(lines[0]), Complaints(lines[1..]));
  }

  lemma {:induction false} AddLinesAdds(o: Outcome, lines: seq<string>, last: string)
    ensures AddLines(o, lines, last) == Adds(o, lines, last)
    decreases |lines|
  {
    if lines == [] {
      AddsNothing(o, last);
    } else {
      AddsFirst(o, lines, last);
      AddLinesAdds(AddLine(o, lines[0]), lines[1..], last);
    }
  }

  lemma UnlinesFirst(lines: seq<string>, last: string)
    requires lines != []
    ensures Unlines(lines) + last == lines[0] + "\n" + (Unlines(lines[1..]) + last)
  {
  }

  /** The text from `i` on is these lines, each ended by `stop`, and then `last`. */
  ghost predicate Written(lines: seq<string>, stop: char, last: string, t: string, i: nat)
    decreases |lines|
  {
    if lines == [] then i <= |t| && t[i..] == last
    else
      var e := i + |lines[0]|;
      e < |t| && t[i..e] == lines[0] && t[e] == stop && Written(lines[1..], stop, last, t, e + 1)
  }

  lemma {:induction false} UnlinesIsWritten(lines: seq<string>, last: string, t: string, i: nat)
    requires i <= |t| && t[i..] == Unlines(lines) + last
    ensures Written(lines, '\n', last, t, i)
    decreases |lines|
  {
    if lines == [] {
      assert Unlines(lines) + last == last;
    } else {
      UnlinesFirst(lines, last);
      FirstLine(t, i, lines[0], Unlines(lines[1..]) + last);
      UnlinesIsWritten(lines[1..], last, t, i + |lines[0]| + 1);
    }
  }

  lemma LinesStep(t: string, i: nat, e: nat, o: Outcome)
    requires i <= e < |t| && '\n' !in t[i..e] && t[e] == '\n'
    ensures Lines(t, i, o) == Lines(t, e + 1, AddLine(o, t[i..e]))
  {
    OneLine(t, i, e, o);
  }

  lemma {:induction false} LinesFrom(t: string, i: nat, lines: seq<string>, last: string, o: Outcome)
    requires i <= |t| && Written(lines, '\n', last, t, i) && NoNewlines(lines) && '\n' !in last
    ensures Lines(t, i, o) == AddLines(o, lines, last)
    decreases |lines|
  {
    if lines == [] {
      LastLine(t, i, last, o);
    } else {
      var e := i + |lines[0]|;
      LinesStep(t, i, e, o);
      LinesFrom(t, e + 1, lines[1..], last, AddLine(o, lines[0]));
    }
  }

  lemma Rejoin(a: seq<string>, b: seq<string>, c: seq<string>)
    ensures (a + b) + c == a + (b + c)
  {
  }

  /**
   A file of lines, with or without a newline after the last one: what is recorded are its entries, what is complained
   about are the lines that are no entry, no comment and not blank, both in the order of the file.
   */
  lemma FileMeaning(lines: seq<string>, last: string)
    requires NoNewlines(lines) && '\n' !in last
    ensures var o := Lines(Unlines(lines) + last, 0, Outcome([], []));
            && o.found == Entries(lines) + EntryOf(last)
            && o.shown == Complaints(lines) + LastComplaint(last)
  {
    var t := Unlines(lines) + last;
    assert t[0..] == t;
    UnlinesIsWritten(lines, last, t, 0);
    LinesFrom(t, 0, lines, last, Outcome([], []));
    AddLinesAdds(Outcome([], []), lines, last);
    assert [] + Entries(lines) == Entries(lines) && [] + Complaints(lines) == Complaints(lines);
  }

  /** Every text is such a file. */
  lemma {:induction false} TextIsFile(t: string) returns (lines: seq<string>, last: string)
    ensures t == Unlines(lines) + last && NoNewlines(lines) && '\n' !in last
    decreases |t|
  {
    var e := LineEnd(t, 0);
    NoNewlineInside(t, 0);
    if e == |t| {
      lines, last := [], t;
    } else {
      lines, last := TextIsFile(t[e + 1..]);
      var more := [t[..e]] + lines;
      assert more[0] == t[..e] && more[1..] == lines;
      assert t == t[..e] + "\n" + t[e + 1..];
      lines := more;
    }
  }

  lemma {:induction false} AllEntries(lines: seq<string>)
    requires forall k :: 0 <= k < |lines| ==> IsEntry(lines[k])
    ensures Entries(lines) == lines && Complaints(lines) == []
  {
    if lines != [] {
      AllEntries(lines[1..]);
    }
  }

  /** Any list of entries survives being written to a file, one a line, and parsed again, with no complaint. */
  lemma FileRoundTrip(lines: seq<string>)
    requires NoNewlines(lines) && forall k :: 0 <= k < |lines| ==> IsEntry(lines[k])
    ensures Lines(Unlines(lines), 0, Outcome([], [])) == Outcome(lines, [])
  {
    FileMeaning(lines, "");
    AllEntries(lines);
    assert Unlines(lines) + "" == Unlines(lines);
  }

  // ---- what a packed region means ----

  function Pack(strings: seq<string>): string {
    if strings == [] then "" else strings[0] + [NUL] + Pack(strings[1..])
  }

  lemma FirstPacked(t: string, i: nat, s: string, rest: string)
    requires i <= |t| && t[i..] == s + [NUL] + rest && s != "" && NUL !in s
    ensures TextEnd(t, i) == i + |s| < |t| && t[i] != NUL && t[i..i + |s|] == s && t[i + |s| + 1..] == rest
  {
    var e := i + |s|;
    assert t[i..e] == t[i..][..|s|] == s;
    assert t[e..] == t[i..][|s|..] == [NUL] + rest;
    assert t[e + 1..] == t[e..][1..];
    assert forall k :: i <= k < e ==> t[k] == t[i..e][k - i];
    TextEndIs(t, i, e);
  }

  /** What ends a list of packed strings: the end of the region, an empty string, or a string that the region ends. */
  ghost predicate Closing(rest: string) {
    rest == "" || rest[0] == NUL || NUL !in rest
  }

  function LastPacked(rest: string): seq<string> {
    if rest == "" || rest[0] == NUL then [] else [rest]
  }

  lemma PackedEnd(t: string, i: nat, rest: string, o: Outcome)
    requires i <= |t| && t[i..] == rest && Closing(rest)
    ensures Packed(t, i, o) == Outcome(o.found + LastPacked(rest), o.shown)
  {
    if rest == "" || rest[0] == NUL {
      assert rest != "" ==> t[i] == t[i..][0];
      assert o.found + [] == o.found;
    } else {
      assert forall k :: i <= k < |t| ==> t[k] == t[i..][k - i];
      TextEndIs(t, i, |t|);
      assert t[i..|t|] == rest;
    }
  }

  lemma PackFirst(strings: seq<string>, rest: string)
    requires strings != []
    ensures Pack(strings) + rest == strings[0] + [NUL] + (Pack(strings[1..]) + rest)
  {
  }

  lemma {:induction false} PackIsWritten(strings: seq<string>, rest: string, t: string, i: nat)
    requires i <= |t| && t[i..] == Pack(strings) + rest
    requires Packable(strings)
    ensures Written(strings, NUL, rest, t, i)
    decreases |strings|
  {
    if strings == [] {
      assert Pack(strings) + rest == rest;
    } else {
      PackFirst(strings, rest);
      FirstPacked(t, i, strings[0], Pack(strings[1..]) + rest);
      PackIsWritten(strings[1..], rest, t, i + |strings[0]| + 1);
    }
  }

  lemma PackedStep(t: string, i: nat, s: string, o: Outcome)
    requires i + |s| < |t| && t[i..i + |s|] == s && t[i + |s|] == NUL && s != "" && NUL !in s
    ensures Packed(t, i, o) == Packed(t, i + |s| + 1, o.(found := o.found + [s]))
  {
    assert forall k :: i <= k < i + |s| ==> t[k] == t[i..i + |s|][k - i];
    TextEndIs(t, i, i + |s|);
  }

  ghost function AddPacked(o: Outcome, strings: seq<string>, rest: string): Outcome {
    Outcome(o.found + strings + LastPacked(rest), o.shown)
  }

  lemma AddPackedFirst(o: Outcome, strings: seq<string>, rest: string)
    requires strings != []
    ensures AddPacked(o.(found := o.found + [strings[0]]), strings[1..], rest) == AddPacked(o, strings, rest)
  {
    assert o.found + [strings[0]] + strings[1..] == o.found + strings;
  }

  lemma AddPackedNone(o: Outcome, rest: string)
    ensures AddPacked(o, [], rest) == Outcome(o.found + LastPacked(rest), o.shown)
  {
    assert o.found + [] == o.found;
  }

  ghost predicate Packable(strings: seq<string>) {
    forall k :: 0 <= k < |strings| ==> strings[k] != "" && NUL !in strings[k]
  }

  lemma {:induction false} PackedFrom(t: string, i: nat, strings: seq<string>, rest: string, o: Outcome)
    requires i <= |t| && Written(strings, NUL, rest, t, i) && Closing(rest) && Packable(strings)
    ensures Packed(t, i, o) == AddPacked(o, strings, rest)
    decreases |strings|
  {
    if strings == [] {
      AddPackedNone(o, rest);
      PackedEnd(t, i, rest, o);
    } else {
      AddPackedFirst(o, strings, rest);
      PackedStep(t, i, strings[0], o);
      PackedFrom(t, i + |strings[0]| + 1, strings[1..], rest, o.(found := o.found + [strings[0]]));
    }
  }

  /** Every region is such a list. */
  lemma {:induction false} TextIsPacked(t: string) returns (strings: seq<string>, rest: string)
    ensures t == Pack(strings) + rest && Packable(strings) && Closing(rest)
    decreases |t|
  {
    var e := TextEnd(t, 0);
    TextEndBounds(t, 0);
    if e == |t| || e == 0 {
      strings, rest := [], t;
    } else {
      var more;
      more, rest := TextIsPacked(t[e + 1..]);
      strings := [t[..e]] + more;
      assert strings[0] == t[..e] && strings[1..] == more;
      assert t == t[..e] + [NUL] + t[e + 1..];
    }
  }

  /** Strings with a NUL after each are recorded up to the first empty one; the last may end with the region. */
  lemma PackedMeaning(strings: seq<string>, rest: string)
    requires Packable(strings)
    requires Closing(rest)
    ensures Packed(Pack(strings) + rest, 0, Outcome([], [])) == Outcome(strings + LastPacked(rest), [])
  {
    var t := Pack(strings) + rest;
    assert t[0..] == t && [] + strings == strings;
    PackIsWritten(strings, rest, t, 0);
    PackedFrom(t, 0, strings, rest, Outcome([], []));
  }

  // ---- the scanner ----

  /** The buffer from `i` on holds the rest of the text, which has no NUL but the one that ends it. */
  ghost predicate Holds(b: seq<char>, t: string, i: nat) {
    && i <= |t| < |b| && b[|t|] == NUL
    && (forall k :: i <= k < |t| ==> b[k] == t[k] != NUL)
  }

  method Eol(env: array<char>, ghost t: string, i: nat) returns (e: nat)
    requires Holds(env[..], t, i)
    ensures e == LineEnd(t, i)
  {
    e := i;
    while env[e] != NUL && env[e] != '\n'
      invariant i <= e <= |t| && LineEnd(t, i) == LineEnd(t, e)
      decreases |t| - e
    {
      e := e + 1;
    }
  }

  /** Cuts the line at its end to print it, and puts the newline back. */
  method InvalidEol(env: array<char>, ghost t: string, i: nat) returns (e: nat, shown: string)
    requires Holds(env[..], t, i)
    modifies env
    ensures e == LineEnd(t, i) && shown == t[i..e]
    ensures env[..] == old(env[..])
  {
    e := Eol(env, t, i);
    var was := env[e];
    env[e] := NUL;
    assert forall k :: i <= k < e ==> env[..][k] != NUL;
    TextEndIs(env[..], i, e);
    TextEndBounds(env[..], i);
    shown := CText(env[..], i);
    assert shown == t[i..e];
    env[e] := was;
    assert forall k :: 0 <= k < env.Length ==> env[k] == old(env[k]);
  }

  /** Whether the line at `i`, which starts with a letter, is an entry. */
  method Named(env: array<char>, ghost t: string, i: nat) returns (valid: bool)
    requires Holds(env[..], t, i) && i < |t| && IsAlpha(t[i])
    ensures valid <==> EntryAt(t, i)
  {
    var invalid := false;
    var p := i + 1;
    while env[p] != NUL && env[p] != '=' && env[p] != '\n'
      invariant i < p <= |t|
      invariant !invalid ==> NameEnd(t, i) == NameEnd(t, p)
      invariant invalid ==> NameEnd(t, i) < |t| && t[NameEnd(t, i)] != '='
      decreases |t| - p
    {
      if !IsAlnum(env[p]) {
        invalid := true;
      }
      p := p + 1;
    }
    if env[p] != '=' {
      invalid := true;
    }
    return !invalid;
  }

  method SkipBlanks(env: array<char>, ghost t: string, i: nat) returns (p: nat)
    requires Holds(env[..], t, i)
    ensures p == Ink(t, i)
  {
    p := i;
    while IsBlank(env[p])
      invariant i <= p <= |t| && Ink(t, p) == Ink(t, i)
      decreases |t| - p
    {
      p := p + 1;
    }
  }

  lemma {:induction false} BlankLineEnd(t: string, i: nat)
    requires i <= |t| && Ink(t, i) < |t| && t[Ink(t, i)] == '\n'
    ensures LineEnd(t, i) == Ink(t, i)
    decreases |t| - i
  {
    if IsBlank(t[i]) {
      BlankLineEnd(t, i + 1);
    }
  }

  /**
   One line that is not an entry: where it ends, and what was printed, with the complaint about it if there is
   one.
   */
  method PassLine(env: array<char>, ghost t: string, i: nat, shown: seq<string>, ghost got: seq<string>)
    returns (e: nat, said: seq<string>)
    requires Holds(env[..], t, i) && i < |t| && !EntryAt(t, i)
    modifies env
    ensures env[..] == old(env[..])
    ensures e == LineEnd(t, i) && Outcome(got, said) == Judge(t, i, Outcome(got, shown))
  {
    var text: string;
    if IsAlpha(env[i]) {
      e, text := InvalidEol(env, t, i);
      return e, shown + [text];
    }
    var p := SkipBlanks(env, t, i);
    if env[p] == '\n' {
      BlankLineEnd(t, i);
      return p, shown;
    }
    if env[p] == '#' {
      e := Eol(env, t, i);
      return e, shown;
    }
    e, text := InvalidEol(env, t, i);
    return e, shown + [text];
  }

  lemma PassStep(t: string, i: nat, o: Outcome, next: Outcome)
    requires i < |t| && next == Judge(t, i, o)
    ensures Lines(t, i, o) == if LineEnd(t, i) < |t| then Lines(t, LineEnd(t, i) + 1, next) else Lines(t, |t|, next)
  {
  }

  /** The next entry line at or after line start `i`, or the end of the text: nothing between counts as an entry. */
  method EnvNext(env: array<char>, ghost t: string, i: nat, shown: seq<string>, ghost got: seq<string>)
    returns (r: nat, said: seq<string>)
    requires Holds(env[..], t, i)
    modifies env
    ensures env[..] == old(env[..])
    ensures i <= r <= |t| && (r < |t| ==> EntryAt(t, r))
    ensures Lines(t, r, Outcome(got, said)) == Lines(t, i, Outcome(got, shown))
    decreases |t| - i
  {
    if env[i] == NUL {
      return i, shown;
    }
    if IsAlpha(env[i]) {
      var valid := Named(env, t, i);
      if valid {
        return i, shown;
      }
    }
    var e, here := PassLine(env, t, i, shown, got);
    ghost var o := Outcome(got, here);
    PassStep(t, i, Outcome(got, shown), o);
    if env[e] == NUL {
      return e, here;
    }
    r, said := EnvNext(env, t, e + 1, here, got);
  }

  // ---- the whole region ----

  /** Where the entry at `i` ends. */
  function EntryEnd(newline: bool, t: string, i: nat): (e: nat)
    requires i <= |t|
    ensures i <= e <= |t|
  {
    TextEndBounds(t, i);
    if newline then LineEnd(t, i) else TextEnd(t, i)
  }

  ghost predicate StartsEntry(newline: bool, t: string, i: nat) {
    i < |t| && if newline then EntryAt(t, i) else t[i] != NUL
  }

  lemma TakeOne(newline: bool, t: string, i: nat, o: Outcome)
    requires StartsEntry(newline, t, i)
    ensures var e := EntryEnd(newline, t, i);
            Parse(newline, t, i, o) == Parse(newline, t, e + 1, o.(found := o.found + [t[i..e]]))
  {
    TextEndBounds(t, i);
    var e := EntryEnd(newline, t, i);
    var next := o.(found := o.found + [t[i..e]]);
    if newline {
      assert Judge(t, i, o) == next;
      assert Lines(t, |t|, next) == next;
    } else {
      assert Packed(t, |t|, next) == next;
    }
  }

  lemma Grows(newline: bool, t: string, i: nat, o: Outcome)
    requires StartsEntry(newline, t, i)
    ensures |o.found| < |Parse(newline, t, i, o).found|
  {
    TakeOne(newline, t, i, o);
  }

  /** The text at `at` is `text` and it ends before `lim`. */
  ghost predicate Recorded(b: seq<char>, at: nat, text: string, lim: nat) {
    at + |text| < lim <= |b| && b[at..at + |text|] == text && b[at + |text|] == NUL && NUL !in text
  }

  ghost predicate AllRecorded(b: seq<char>, at: seq<nat>, texts: seq<string>, lim: nat)
    decreases |at|
  {
    && |at| == |texts|
    && (at != [] ==> var n := |at| - 1; Recorded(b, at[n], texts[n], lim) && AllRecorded(b, at[..n], texts[..n], lim))
  }

  lemma RecordedReads(b: seq<char>, at: nat, text: string, lim: nat)
    requires Recorded(b, at, text, lim)
    ensures CText(b, at) == text
  {
    assert forall k :: at <= k < at + |text| ==> b[k] == text[k - at];
    TextEndIs(b, at, at + |text|);
    TextEndBounds(b, at);
  }

  lemma {:induction false} AllRead(b: seq<char>, at: seq<nat>, texts: seq<string>, lim: nat)
    requires AllRecorded(b, at, texts, lim)
    ensures |at| == |texts| && forall k :: 0 <= k < |at| ==> CText(b, at[k]) == texts[k]
    decreases |at|
  {
    if at != [] {
      var n := |at| - 1;
      RecordedReads(b, at[n], texts[n], lim);
      AllRead(b, at[..n], texts[..n], lim);
    }
  }

  lemma RecordStays(b: seq<char>, c: seq<char>, at: nat, text: string, lim: nat, more: nat)
    requires Recorded(b, at, text, lim) && lim <= more <= |c| && forall x :: 0 <= x < lim ==> b[x] == c[x]
    ensures Recorded(c, at, text, more)
  {
    assert b[at..at + |text|] == c[at..at + |text|];
  }

  lemma {:induction false} RecordedStays(b: seq<char>, c: seq<char>, at: seq<nat>, texts: seq<string>, lim: nat, more: nat)
    requires AllRecorded(b, at, texts, lim) && lim <= more <= |c| && lim <= |b|
    requires forall x :: 0 <= x < lim ==> b[x] == c[x]
    ensures AllRecorded(c, at, texts, more)
    decreases |at|
  {
    if at != [] {
      var n := |at| - 1;
      RecordStays(b, c, at[n], texts[n], lim, more);
      RecordedStays(b, c, at[..n], texts[..n], lim, more);
    }
  }

  /**
   Walks over the entry at `i` and ends it with a NUL: at its newline, at the NUL it has, or at the end of the
   region.
   */
  method CloseEntry(env: array<char>, newline: bool, ghost t: string, size: nat, i: nat) returns (j: nat)
    requires |t| == size < env.Length && StartsEntry(newline, t, i)
    requires forall k :: i <= k < size ==> env[k] == t[k] && (newline ==> t[k] != NUL)
    modifies env
    ensures j == EntryEnd(newline, t, i) + 1
    ensures env[..] == old(env[..])[EntryEnd(newline, t, i) := NUL]
    ensures Recorded(env[..], i, t[i..EntryEnd(newline, t, i)], j)
  {
    var e := i;
    ghost var end := EntryEnd(newline, t, i);
    TextEndBounds(t, i);
    if newline {
      NoNewlineInside(t, i);
    }
    while e < size && env[e] != NUL && !(newline && env[e] == '\n')
      invariant i <= e <= end
      invariant forall k :: i <= k < e ==> t[k] != NUL
    {
      e := e + 1;
    }
    assert e == end;
    env[e] := NUL;
    j := e + 1;
    assert env[i..e] == t[i..e];
  }

  /** Whether the region is a text file: its only NUL is the one at its end. */
  predicate IsFile(b: seq<char>, size: nat) {
    TextEnd(b, 0) == size
  }

  /** A region without a NUL that is followed by one is a file of lines. */
  lemma FileRegion(b: seq<char>, size: nat, lines: seq<string>, last: string)
    requires size < |b| && NUL !in b[..size] && b[size] == NUL
    requires b[..size] == Unlines(lines) + last && NoNewlines(lines) && '\n' !in last
    ensures Parse(IsFile(b, size), b[..size], 0, Outcome([], [])) ==
            Outcome(Entries(lines) + EntryOf(last), Complaints(lines) + LastComplaint(last))
  {
    assert forall k :: 0 <= k < size ==> b[k] == b[..size][k];
    TextEndIs(b, 0, size);
    FileMeaning(lines, last);
  }

  /** Any other region is one of packed strings. */
  lemma PackedRegion(b: seq<char>, size: nat, strings: seq<string>, rest: string)
    requires size < |b| && (NUL in b[..size] || b[size] != NUL)
    requires b[..size] == Pack(strings) + rest && Packable(strings) && Closing(rest)
    ensures Parse(IsFile(b, size), b[..size], 0, Outcome([], [])) == Outcome(strings + LastPacked(rest), [])
  {
    TextEndBounds(b, 0);
    PackedMeaning(strings, rest);
  }

  method FirstNul(env: array<char>) returns (p: nat)
    requires NUL in env[..]
    ensures p == TextEnd(env[..], 0) < env.Length
  {
    TextEndBounds(env[..], 0);
    p := 0;
    while env[p] != NUL
      invariant p <= TextEnd(env[..], 0) < env.Length
      decreases env.Length - p
    {
      p := p + 1;
    }
  }

  /** The buffer from `i` on is still what it was; before `i` only separators became NULs. */
  ghost predicate Trimmed(b: seq<char>, was: seq<char>, newline: bool, size: nat, i: nat) {
    && |b| == |was|
    && (forall k :: 0 <= k < |b| && i <= k ==> b[k] == was[k])
    && (forall k :: 0 <= k < |b| && b[k] != was[k] ==> b[k] == NUL && (k == size || (newline && k < size && was[k] == '\n')))
  }

  /** The start of the next entry, if there is one, and what was printed by then. */
  method FindEntry(env: array<char>, newline: bool, ghost t: string, i: nat, shown: seq<string>, ghost got: seq<string>)
    returns (j: nat, said: seq<string>)
    requires |t| < env.Length && i < |t| && (forall k :: i <= k < |t| ==> env[k] == t[k])
    requires newline ==> Holds(env[..], t, i)
    modifies env
    ensures env[..] == old(env[..]) && i <= j <= |t|
    ensures Parse(newline, t, j, Outcome(got, said)) == Parse(newline, t, i, Outcome(got, shown))
    ensures env[j] == NUL ==> Parse(newline, t, j, Outcome(got, said)) == Outcome(got, said)
    ensures env[j] != NUL ==> StartsEntry(newline, t, j)
  {
    if newline {
      j, said := EnvNext(env, t, i, shown, got);
    } else {
      j, said := i, shown;
    }
  }

  method AddEntry(env: array<char>, environ: array<nat>, n: nat, newline: bool, ghost t: string, size: nat, i: nat, ghost got: seq<string>)
    returns (j: nat)
    requires |t| == size < env.Length && StartsEntry(newline, t, i) && n < environ.Length
    requires forall k :: i <= k < size ==> env[k] == t[k] && (newline ==> t[k] != NUL)
    requires AllRecorded(env[..], environ[..n], got, i)
    modifies env, environ
    ensures j == EntryEnd(newline, t, i) + 1
    ensures AllRecorded(env[..], environ[..n + 1], got + [t[i..EntryEnd(newline, t, i)]], j)
    ensures env[..] == old(env[..])[EntryEnd(newline, t, i) := NUL]
  {
    ghost var before := env[..];
    ghost var old_at := environ[..n];
    environ[n] := i;
    j := CloseEntry(env, newline, t, size, i);
    RecordedStays(before, env[..], old_at, got, i, j);
    assert environ[..n + 1] == old_at + [i];
  }

  lemma TrimOne(b: seq<char>, was: seq<char>, newline: bool, t: string, i: nat, e: nat)
    requires |t| < |was| && was[..|t|] == t && i <= |t| && e == EntryEnd(newline, t, i)
    requires Trimmed(b, was, newline, |t|, i)
    ensures Trimmed(b[e := NUL], was, newline, |t|, e + 1)
  {
    TextEndBounds(t, i);
    assert e < |t| ==> was[e] == t[e] && b[e] == was[e];
  }

  /** What holds of the buffer at every turn of the loop: `at` holds the entries `got`, and the scan is at `i`. */
  ghost predicate Progress(b: seq<char>, was: seq<char>, newline: bool, t: string, at: seq<nat>, got: seq<string>, i: nat) {
    && |t| < |was| && was[..|t|] == t && (newline ==> Holds(was, t, 0))
    && AllRecorded(b, at, got, i)
    && Trimmed(b, was, newline, |t|, i)
  }

  lemma ProgressRest(b: seq<char>, was: seq<char>, newline: bool, t: string, at: seq<nat>, got: seq<string>, i: nat)
    requires Progress(b, was, newline, t, at, got, i)
    ensures |b| == |was| && (forall k :: i <= k < |t| ==> b[k] == t[k] && (newline ==> t[k] != NUL))
    ensures newline && i < |t| ==> Holds(b, t, i)
  {
  }

  lemma ProgressOn(b: seq<char>, was: seq<char>, newline: bool, t: string, at: seq<nat>, got: seq<string>, i: nat, j: nat)
    requires Progress(b, was, newline, t, at, got, i) && i <= j <= |t|
    ensures Progress(b, was, newline, t, at, got, j)
  {
    RecordedStays(b, b, at, got, i, j);
  }

  method TakeText(env: array<char>, environ: array<nat>, n: nat, newline: bool, size: nat, i: nat,
                  ghost was: seq<char>, ghost t: string, ghost got: seq<string>)
    returns (j: nat)
    requires n < environ.Length && |t| == size && Progress(env[..], was, newline, t, environ[..n], got, i)
    requires StartsEntry(newline, t, i)
    modifies env, environ
    ensures j == EntryEnd(newline, t, i) + 1
    ensures Progress(env[..], was, newline, t, environ[..n + 1], got + [t[i..EntryEnd(newline, t, i)]], j)
  {
    ProgressRest(env[..], was, newline, t, environ[..n], got, i);
    TrimOne(env[..], was, newline, t, i, EntryEnd(newline, t, i));
    j := AddEntry(env, environ, n, newline, t, size, i, got);
  }

  method Take(env: array<char>, environ: array<nat>, n: nat, newline: bool, size: nat, i: nat, ghost shown: seq<string>,
              ghost was: seq<char>, ghost t: string, ghost got: seq<string>)
    returns (j: nat, ghost has: seq<string>)
    requires n < environ.Length && |t| == size && Progress(env[..], was, newline, t, environ[..n], got, i)
    requires StartsEntry(newline, t, i)
    modifies env, environ
    ensures i < j && |has| == |got| + 1 && Progress(env[..], was, newline, t, environ[..n + 1], has, j)
    ensures Parse(newline, t, j, Outcome(has, shown)) == Parse(newline, t, i, Outcome(got, shown))
  {
    TakeOne(newline, t, i, Outcome(got, shown));
    has := got + [t[i..EntryEnd(newline, t, i)]];
    j := TakeText(env, environ, n, newline, size, i, was, t, got);
  }

  method Advance(env: array<char>, newline: bool, i: nat, shown: seq<string>, ghost was: seq<char>, ghost t: string,
                 ghost at: seq<nat>, ghost got: seq<string>)
    returns (j: nat, said: seq<string>)
    requires i < |t| && Progress(env[..], was, newline, t, at, got, i)
    modifies env
    ensures env[..] == old(env[..]) && i <= j <= |t| < env.Length
    ensures Progress(env[..], was, newline, t, at, got, j)
    ensures Parse(newline, t, j, Outcome(got, said)) == Parse(newline, t, i, Outcome(got, shown))
    ensures env[j] == NUL ==> Parse(newline, t, j, Outcome(got, said)) == Outcome(got, said)
    ensures env[j] != NUL ==> StartsEntry(newline, t, j)
  {
    ProgressRest(env[..], was, newline, t, at, got, i);
    j, said := FindEntry(env, newline, t, i, shown, got);
    ProgressOn(env[..], was, newline, t, at, got, i, j);
  }

  /** One turn of the loop of setup_env; `more` is false when it breaks out. */
  method Turn(env: array<char>, size: nat, environ: array<nat>, newline: bool, i: nat, n: nat, shown: seq<string>,
              ghost was: seq<char>, ghost t: string, ghost got: seq<string>, ghost final: Outcome)
    returns (more: bool, j: nat, m: nat, said: seq<string>, ghost has: seq<string>)
    requires i < |t| == size && |got| == n <= |final.found| <= environ.Length
    requires Progress(env[..], was, newline, t, environ[..n], got, i) && Parse(newline, t, i, Outcome(got, shown)) == final
    modifies env, environ
    ensures |has| == m <= |final.found| && (more ==> j > i)
    ensures Progress(env[..], was, newline, t, environ[..m], has, j)
    ensures more ==> Parse(newline, t, j, Outcome(has, said)) == final
    ensures !more ==> Outcome(has, said) == final
  {
    ghost var at := environ[..n];
    m, has := n, got;
    j, said := Advance(env, newline, i, shown, was, t, at, got);
    assert environ[..n] == at;
    more := env[j] != NUL;
    if more {
      Grows(newline, t, j, Outcome(got, said));
      j, has := Take(env, environ, n, newline, size, j, said, was, t, got);
      m := n + 1;
    }
  }

  /** The loop of setup_env; the outcome is what it records and prints. */
  method Scan(env: array<char>, size: nat, environ: array<nat>, newline: bool, ghost was: seq<char>, ghost t: string, ghost final: Outcome)
    returns (n: nat, shown: seq<string>, ghost got: seq<string>, ghost end: nat)
    requires size < env.Length && was == env[..] && t == env[..size] && (newline ==> Holds(was, t, 0))
    requires final == Parse(newline, t, 0, Outcome([], [])) && |final.found| <= environ.Length
    modifies env, environ
    ensures n <= environ.Length && Outcome(got, shown) == final
    ensures Progress(env[..], was, newline, t, environ[..n], got, end)
  {
    got := [];
    var i: nat, more := 0, true;
    n, shown := 0, [];
    while more && i < size
      invariant |got| == n <= |final.found|
      invariant Progress(env[..], was, newline, t, environ[..n], got, i)
      invariant more ==> Parse(newline, t, i, Outcome(got, shown)) == final
      invariant !more ==> Outcome(got, shown) == final
      decreases more, size - i
    {
      more, i, n, shown, got := Turn(env, size, environ, newline, i, n, shown, was, t, got, final);
    }
    end := i;
  }

  method SetupEnv(env: array<char>, size: nat, environ: array<nat>) returns (n: nat, shown: seq<string>)
    requires size < env.Length && NUL in env[..]
    requires |Parse(IsFile(env[..], size), env[..size], 0, Outcome([], [])).found| <= environ.Length
    modifies env, environ
    ensures n == |old(Parse(IsFile(env[..], size), env[..size], 0, Outcome([], []))).found| <= environ.Length
    ensures forall k :: 0 <= k < n ==> CText(env[..], environ[k]) == old(Parse(IsFile(env[..], size), env[..size], 0, Outcome([], []))).found[k]
    ensures shown == old(Parse(IsFile(env[..], size), env[..size], 0, Outcome([], []))).shown
    ensures Trimmed(env[..], old(env[..]), old(IsFile(env[..], size)), size, env.Length)
  {
    ghost var was := env[..];
    ghost var t := env[..size];
    var p := FirstNul(env);
    var newline := p == size;
    TextEndBounds(was, 0);
    ghost var got: seq<string>, end: nat;
    n, shown, got, end := Scan(env, size, environ, newline, was, t, Parse(newline, t, 0, Outcome([], [])));
    AllRead(env[..], environ[..n], got, end);
    assert forall k :: 0 <= k < n ==> environ[..n][k] == environ[k];
  }
}
