/** String values in a configuration file: the escaping loop of conf_write and the in-place
    unescaping of conf_read. */
module ConfString {
  import opened Expr

  const NUL := '\0'
  const QUOTE := '\"'
  const BACKSLASH := '\\'

  predicate Special(c: char) { c == QUOTE || c == BACKSLASH }

  function Escape(s: string): string {
    if s == "" then ""
    else (if Special(s[0]) then [BACKSLASH, s[0]] else [s[0]]) + Escape(s[1..])
  }

  /** What stands before the closing quote, with escapes resolved; nothing without one. */
  function Unescape(s: string): Option<string> {
    if s == "" then None
    else if s[0] == QUOTE then Some("")
    else if s[0] != BACKSLASH then Cons(s[0], Unescape(s[1..]))
    else if |s| == 1 then None
    else Cons(s[1], Unescape(s[2..]))
  }

  function Cons(c: char, s: Option<string>): Option<string> {
    if s.None? then None else Some([c] + s.value)
  }

  /** Reading back an escaped string and its closing quote gives the string, whatever follows. */
  lemma {:induction false} UnescapeEscape(s: string, after: string)
    ensures Unescape(Escape(s) + [QUOTE] + after) == Some(s)
  {
    var all := Escape(s) + [QUOTE] + after;
    if s == "" {
      assert all[0] == QUOTE;
    } else {
      UnescapeEscape(s[1..], after);
      var tail := Escape(s[1..]) + [QUOTE] + after;
      if Special(s[0]) {
        assert all[2..] == tail && all[0] == BACKSLASH && all[1] == s[0];
      } else {
        assert all[1..] == tail && all[0] == s[0];
      }
      assert s == [s[0]] + s[1..];
    }
  }

  /** A backslash goes before every quote and backslash, and before nothing else. */
  lemma EscapeCharacter(c: char)
    ensures Escape([c]) == if c == '\"' || c == '\\' then ['\\', c] else [c]
  {
    assert [c][1..] == "";
  }

  // conf_write

  lemma {:induction false} EscapeAppend(a: string, b: string)
    ensures Escape(a + b) == Escape(a) + Escape(b)
  {
    if a == "" {
      assert a + b == b;
    } else {
      EscapeAppend(a[1..], b);
      assert (a + b)[1..] == a[1..] + b && (a + b)[0] == a[0];
    }
  }

  lemma {:induction false} EscapePlain(s: string)
    requires forall c | c in s :: !Special(c)
    ensures Escape(s) == s
  {
    if s != "" {
      EscapePlain(s[1..]);
      assert s == [s[0]] + s[1..];
    }
  }

  /** strcspn(str + from, "\"\\") */
  method PlainLength(str: string, from: nat) returns (l: nat)
    requires from <= |str|
    ensures from + l <= |str| && (from + l < |str| ==> Special(str[from + l]))
    ensures forall i | from <= i < from + l :: !Special(str[i])
  {
    l := 0;
    while from + l < |str| && !Special(str[from + l])
      invariant from + l <= |str|
      invariant forall i | from <= i < from + l :: !Special(str[i])
    {
      l := l + 1;
    }
  }

  lemma EscapeRun(str: string, pos: nat, l: nat)
    requires pos + l <= |str| && forall i | pos <= i < pos + l :: !Special(str[i])
    ensures Escape(str[..pos + l]) == Escape(str[..pos]) + str[pos..pos + l]
  {
    assert str[..pos + l] == str[..pos] + str[pos..pos + l];
    EscapeAppend(str[..pos], str[pos..pos + l]);
    EscapePlain(str[pos..pos + l]);
  }

  lemma EscapeOne(str: string, pos: nat)
    requires pos < |str| && Special(str[pos])
    ensures Escape(str[..pos + 1]) == Escape(str[..pos]) + [BACKSLASH, str[pos]]
  {
    assert str[..pos + 1] == str[..pos] + [str[pos]];
    EscapeAppend(str[..pos], [str[pos]]);
    assert [str[pos]][1..] == "";
  }

  /** The loops of conf_write: a run of plain characters at once, then specials one by one. */
  method WriteEscaped(str: string) returns (out: string)
    ensures out == Escape(str)
  {
    out := "";
    var pos := 0;
    while true
      invariant 0 <= pos <= |str| && out == Escape(str[..pos])
      decreases |str| - pos
    {
      var l := PlainLength(str, pos);
      EscapeRun(str, pos, l);
      out := out + str[pos..pos + l];
      pos := pos + l;
      while pos < |str| && Special(str[pos])
        invariant pos <= |str| && out == Escape(str[..pos])
      {
        EscapeOne(str, pos);
        out := out + [BACKSLASH, str[pos]];
        pos := pos + 1;
      }
      if pos == |str| {
        break;
      }
    }
    assert str[..|str|] == str;
  }

  // conf_read: C strings in a line buffer.

  /** The string that starts at an index: up to the next NUL. */
  function CString(b: seq<char>, i: nat): string
    requires i <= |b|
    decreases |b| - i
  {
    if i == |b| || b[i] == NUL then "" else [b[i]] + CString(b, i + 1)
  }

  /** A NUL ends the string that starts at i. */
  predicate Ends(b: seq<char>, i: nat) { i <= |b| && i + |CString(b, i)| < |b| }

  lemma {:induction false} CStringAt(b: seq<char>, i: nat)
    requires i <= |b|
    ensures i + |CString(b, i)| <= |b| && CString(b, i) == b[i..i + |CString(b, i)|]
    ensures NUL !in CString(b, i)
    ensures Ends(b, i) ==> b[i + |CString(b, i)|] == NUL
    decreases |b| - i
  {
    if i < |b| && b[i] != NUL {
      CStringAt(b, i + 1);
      assert b[i..i + |CString(b, i)|] == [b[i]] + b[i + 1..i + |CString(b, i)|];
    }
  }

  lemma CStringCells(b: seq<char>, i: nat)
    requires Ends(b, i)
    ensures var s := CString(b, i);
      b[i + |s|] == NUL && forall j | i <= j < i + |s| :: b[j] == s[j - i] && b[j] != NUL
  {
    var s := CString(b, i);
    CStringAt(b, i);
    forall j | i <= j < i + |s| ensures b[j] == s[j - i] && b[j] != NUL {
      assert b[i..i + |s|][j - i] == s[j - i] && s[j - i] in s;
    }
  }

  lemma {:induction false} CStringIs(b: seq<char>, i: nat, s: string)
    requires i + |s| <= |b| && b[i..i + |s|] == s && NUL !in s
    requires i + |s| == |b| || b[i + |s|] == NUL
    ensures CString(b, i) == s
    decreases |s|
  {
    if s != "" {
      assert b[i] == s[0] && s[0] in s;
      assert b[i + 1..i + 1 + |s[1..]|] == s[1..];
      CStringIs(b, i + 1, s[1..]);
    }
  }

  /** strpbrk(line + from, "\"\\") */
  method FindSpecial(line: array<char>, from: nat) returns (at: Option<nat>)
    requires Ends(line[..], from)
    ensures var s := CString(line[..], from);
      match at
      case None => forall i | from <= i < from + |s| && i < line.Length :: !Special(line[i])
      case Some(k) => from <= k < from + |s| && k < line.Length && Special(line[k]) && forall i | from <= i < k :: !Special(line[i])
  {
    ghost var s := CString(line[..], from);
    CStringCells(line[..], from);
    var k := from;
    while line[k] != NUL
      invariant from <= k <= from + |s|
      invariant forall i | from <= i < k :: !Special(line[i])
      decreases from + |s| - k
    {
      if Special(line[k]) {
        return Some(k);
      }
      k := k + 1;
    }
    at := None;
  }

  /** strlen(line + from) */
  method StrLen(line: array<char>, from: nat) returns (n: nat)
    requires Ends(line[..], from)
    ensures n == |CString(line[..], from)|
  {
    CStringCells(line[..], from);
    ghost var s := CString(line[..], from);
    n := 0;
    while line[from + n] != NUL
      invariant n <= |s|
      decreases |s| - n
    {
      n := n + 1;
    }
  }

  /** memmove(line + to, line + to + 1, n) */
  method MoveDown(line: array<char>, to: nat, n: nat)
    requires to + n < line.Length
    modifies line
    ensures line[..] == old(line[..to] + line[to + 1..to + 1 + n] + line[to + n..])
  {
    for k := 0 to n
      invariant forall i | 0 <= i < to || to + k <= i < line.Length :: line[i] == old(line[i])
      invariant forall i | to <= i < to + k :: line[i] == old(line[i + 1])
    {
      line[to + k] := line[to + k + 1];
    }
  }

  /** How far the loop of conf_read is: before p2 lies what has been unescaped, and from
      there the rest; all is what the whole comes to. */
  ghost predicate Reading(b: seq<char>, from: nat, p2: nat, all: Option<string>) {
    from <= p2 && Ends(b, p2) && (all.Some? ==> NUL !in b[from..p2]) &&
    all == Prepend(b[from..p2], Unescape(CString(b, p2)))
  }

  /** The string from p2 on reaches k without a special character in between. */
  ghost predicate PlainUpTo(b: seq<char>, p2: nat, k: nat) {
    Ends(b, p2) && p2 <= k < p2 + |CString(b, p2)| && forall i | p2 <= i < k && i < |b| :: !Special(b[i])
  }

  lemma SkipTo(b: seq<char>, from: nat, p2: nat, k: nat, all: Option<string>)
    requires Reading(b, from, p2, all) && PlainUpTo(b, p2, k)
    ensures Reading(b, from, k, all) && CString(b, k) != "" && CString(b, k)[0] == b[k]
    ensures |CString(b, k)| <= |CString(b, p2)|
  {
    var s := CString(b, p2);
    PlainPart(b, p2, k);
    SkipPlain(s, k - p2);
    assert b[from..k] == b[from..p2] + s[..k - p2];
    PrependTwice(b[from..p2], s[..k - p2], Unescape(s[k - p2..]));
  }

  /** What is skipped and what is left of the string. */
  lemma PlainPart(b: seq<char>, p2: nat, k: nat)
    requires PlainUpTo(b, p2, k)
    ensures var s := CString(b, p2);
      && (forall i | 0 <= i < k - p2 :: !Special(s[i])) && s[..k - p2] == b[p2..k] && NUL !in s[..k - p2]
      && Ends(b, k) && CString(b, k) == s[k - p2..] && CString(b, k) != "" && CString(b, k)[0] == b[k]
  {
    var s := CString(b, p2);
    CStringAt(b, p2);
    SuffixString(b, p2, k);
    PartOf(b, s, p2, k);
  }

  lemma PartOf(b: seq<char>, s: string, p2: nat, k: nat)
    requires p2 <= k < p2 + |s| <= |b| && s == b[p2..p2 + |s|] && NUL !in s
    ensures s[..k - p2] == b[p2..k] && NUL !in s[..k - p2] && s[k - p2] == b[k]
    ensures forall i | 0 <= i < k - p2 :: s[i] == b[p2 + i]
  {}

  lemma NothingLeft(b: seq<char>, from: nat, p2: nat, all: Option<string>)
    requires Reading(b, from, p2, all)
    requires forall i | p2 <= i < p2 + |CString(b, p2)| && i < |b| :: !Special(b[i])
    ensures all == None
  {
    var s := CString(b, p2);
    CStringCells(b, p2);
    forall i | 0 <= i < |s| ensures !Special(s[i]) {
      assert b[p2 + i] == s[i];
    }
    NeverClosed(s);
  }

  lemma AtQuote(b: seq<char>, from: nat, k: nat, all: Option<string>)
    requires Reading(b, from, k, all) && CString(b, k) != "" && b[k] == QUOTE
    ensures all == Some(b[from..k])
    ensures Ends(b[k := NUL], from) && CString(b[k := NUL], from) == b[from..k]
  {
    CStringCells(b, k);
    assert b[from..k] + "" == b[from..k];
    assert b[k := NUL][from..k] == b[from..k];
    CStringIs(b[k := NUL], from, b[from..k]);
  }

  lemma AtBackslash(b: seq<char>, b': seq<char>, from: nat, k: nat, all: Option<string>)
    requires Reading(b, from, k, all) && CString(b, k) != "" && b[k] == BACKSLASH
    requires b' == b[..k] + b[k + 1..k + 1 + |CString(b, k)|] + b[k + |CString(b, k)|..]
    ensures Reading(b', from, k + 1, all)
    ensures |CString(b', k + 1)| < |CString(b, k)|
  {
    var t := CString(b, k);
    CStringCells(b, k);
    AfterMove(b, b', k, t);
    assert b'[from..k] == b[from..k];
    if |t| > 1 {
      assert b'[from..k + 1] == b[from..k] + [t[1]];
      PrependTwice(b[from..k], [t[1]], Unescape(t[2..]));
    }
  }

  /** memmove(p2, p2 + 1, strlen(p2)) at a backslash */
  method DropBackslash(line: array<char>, from: nat, k: nat, ghost all: Option<string>)
    requires Reading(line[..], from, k, all) && CString(line[..], k) != "" && line[k] == BACKSLASH
    modifies line
    ensures Reading(line[..], from, k + 1, all)
    ensures |CString(line[..], k + 1)| < |CString(old(line[..]), k)|
    ensures line[..from] == old(line[..from])
  {
    ghost var b := line[..];
    var n := StrLen(line, k);
    MoveDown(line, k, n);
    AtBackslash(b, line[..], from, k, all);
  }

  /** The loop of conf_read over the string at from: the characters that stay move over the
      backslashes, and a NUL replaces the closing quote. */
  method UnescapeInPlace(line: array<char>, from: nat) returns (closed: bool)
    requires Ends(line[..], from)
    modifies line
    ensures closed == Unescape(old(CString(line[..], from))).Some?
    ensures closed ==> Ends(line[..], from) && CString(line[..], from) == Unescape(old(CString(line[..], from))).value
    ensures line[..from] == old(line[..from])
  {
    ghost var all := Unescape(CString(line[..], from));
    ghost var before := line[..];
    var p2 := from;
    if all.Some? { assert line[from..from] + all.value == all.value; }
    while true
      invariant Reading(line[..], from, p2, all) && line[..from] == before[..from]
      decreases |CString(line[..], p2)|
    {
      var at := FindSpecial(line, p2);
      if at.None? {
        NothingLeft(line[..], from, p2, all);
        return false;
      }
      var k := at.value;
      ghost var b := line[..];
      SkipTo(b, from, p2, k, all);
      if line[k] == QUOTE {
        AtQuote(b, from, k, all);
        line[k] := NUL;
        assert line[..] == b[k := NUL];
        return true;
      }
      DropBackslash(line, from, k, all);
      p2 := k + 1;
    }
  }

  function Prepend(p: string, s: Option<string>): Option<string> {
    if s.None? then None else Some(p + s.value)
  }

  lemma PrependTwice(p: string, q: string, s: Option<string>)
    ensures Prepend(p + q, s) == Prepend(p, Prepend(q, s))
    ensures |q| == 1 ==> Prepend(q, s) == Cons(q[0], s)
  {
    if s.Some? {
      assert p + q + s.value == p + (q + s.value);
      if |q| == 1 { assert q == [q[0]]; }
    }
  }

  lemma {:induction false} NeverClosed(s: string)
    requires forall i | 0 <= i < |s| :: !Special(s[i])
    ensures Unescape(s) == None
  {
    if s != "" { NeverClosed(s[1..]); }
  }

  lemma {:induction false} SkipPlain(s: string, n: nat)
    requires n <= |s| && forall i | 0 <= i < n :: !Special(s[i])
    ensures Unescape(s) == Prepend(s[..n], Unescape(s[n..]))
  {
    if n == 0 {
      assert s[0..] == s && s[..0] == "";
      if Unescape(s).Some? { assert "" + Unescape(s).value == Unescape(s).value; }
    } else {
      SkipPlain(s[1..], n - 1);
      assert s[1..][n - 1..] == s[n..] && s[..n] == [s[0]] + s[1..][..n - 1];
      PrependTwice([s[0]], s[1..][..n - 1], Unescape(s[n..]));
    }
  }

  lemma {:induction false} SuffixString(b: seq<char>, i: nat, k: nat)
    requires i <= k && Ends(b, i) && k <= i + |CString(b, i)|
    ensures Ends(b, k) && CString(b, k) == CString(b, i)[k - i..]
    decreases k - i
  {
    if i < k { SuffixString(b, i + 1, k); }
  }

  /** After the move the string behind the next character is what stood one further. */
  lemma AfterMove(b: seq<char>, b': seq<char>, k: nat, t: string)
    requires Ends(b, k) && CString(b, k) == t && t != ""
    requires b' == b[..k] + b[k + 1..k + 1 + |t|] + b[k + |t|..]
    ensures Ends(b', k + 1)
    ensures if |t| > 1 then b'[k] == t[1] && CString(b', k + 1) == t[2..] else CString(b', k + 1) == ""
  {
    CStringCells(b, k);
    var n := |t|;
    assert forall i | k <= i < k + n :: b'[i] == b[i + 1];
    assert b'[k + n - 1] == NUL && b'[k + n] == NUL;
    if n > 1 {
      assert b'[k] == b[k + 1] == t[1];
      assert b'[k + 1..k + n - 1] == t[2..];
      assert forall c | c in t[2..] :: c in t;
      CStringAt(b, k);
      CStringIs(b', k + 1, t[2..]);
    } else {
      CStringIs(b', k + 1, "");
    }
  }

  // A whole line.

  /** The index of the first c, or the length without one. */
  function IndexOf(s: string, c: char): (i: nat)
    ensures i <= |s| && (i < |s| ==> s[i] == c) && c !in s[..i]
  {
    if s == "" || s[0] == c then 0
    else
      var i := 1 + IndexOf(s[1..], c);
      assert s[..i] == [s[0]] + s[1..][..i - 1];
      i
  }

  /** What conf_read splits a line into: the name, ended at '=', and the rest, ended at the
      line break. */
  function AfterName(line: string): Option<string> {
    var i := IndexOf(line, '=');
    if i == |line| then None
    else
      var p := line[i + 1..];
      Some(p[..IndexOf(p, '\n')])
  }

  /** What becomes of a line: nothing is stored, conf_read gives up, or a value is stored. */
  datatype Outcome = Skipped | Invalid | Stored(text: string)

  /** What conf_read makes of a line NAME="..." of a string symbol: it skips it without '=' or
      an opening quote, and gives up without a closing one. */
  function LineValue(line: string): Outcome {
    var text := AfterName(line);
    if text.None? || text.value == "" || text.value[0] != QUOTE then Skipped
    else
      var value := Unescape(text.value[1..]);
      if value.None? then Invalid else Stored(value.value)
  }

  /** A line is skipped exactly unless a quote follows its first '='. */
  lemma SkippedIff(line: string)
    ensures LineValue(line) == Skipped <==>
      !exists i :: 0 <= i < |line| - 1 && line[i] == '=' && line[i + 1] == '\"' && '=' !in line[..i]
  {
    var i := IndexOf(line, '=');
    assert forall j | 0 <= j < i :: line[j] in line[..i];
    assert forall j | i < j < |line| :: line[..j][i] == line[i];
  }

  /** The line conf_write writes for a string symbol. */
  function WrittenLine(name: string, value: string): string {
    name + "=" + [QUOTE] + Escape(value) + [QUOTE] + "\n"
  }

  lemma IndexOfFirst(a: string, c: char, b: string)
    requires c !in a
    ensures IndexOf(a + [c] + b, c) == |a|
  {
    assert (a + [c] + b)[..|a|] == a;
    FirstIs(a + [c] + b, c, |a|);
  }

  lemma {:induction false} EscapeKeeps(s: string, c: char)
    requires !Special(c)
    ensures c in Escape(s) <==> c in s
  {
    if s != "" {
      EscapeKeeps(s[1..], c);
      assert s == [s[0]] + s[1..];
    }
  }

  /** Without a closing quote there is nothing to read back. */
  lemma {:induction false} UnescapeOpen(s: string)
    ensures Unescape(Escape(s)) == None
  {
    if s != "" {
      UnescapeOpen(s[1..]);
      var n := if Special(s[0]) then 2 else 1;
      assert Escape(s)[n..] == Escape(s[1..]);
    }
  }

  /** The line is cut at the first line break, inside the value or behind it. */
  lemma WrittenLineCut(name: string, text: string, after: string)
    requires '=' !in name && '\n' !in text
    ensures AfterName(name + "=" + [QUOTE] + text + "\n" + after) == Some([QUOTE] + text)
  {
    var p := [QUOTE] + text;
    var line := name + "=" + [QUOTE] + text + "\n" + after;
    assert line == name + ['='] + (p + ['\n'] + after);
    IndexOfFirst(name, '=', p + ['\n'] + after);
    assert line[|name| + 1..] == p + ['\n'] + after;
    IndexOfFirst(p, '\n', after);
    assert (p + ['\n'] + after)[..|p|] == p;
  }

  lemma EscapeBreak(value: string, k: nat)
    requires k < |value| && value[k] == '\n'
    ensures Escape(value) == Escape(value[..k]) + "\n" + Escape(value[k + 1..])
  {
    assert value == value[..k] + ("\n" + value[k + 1..]);
    EscapeAppend(value[..k], "\n" + value[k + 1..]);
    assert ("\n" + value[k + 1..])[1..] == value[k + 1..];
  }

  /** Main result: a string written by conf_write is read back by conf_read unchanged exactly
      if it has no line break; otherwise conf_read gives up. */
  lemma LineRoundTrip(name: string, value: string)
    requires '=' !in name
    ensures LineValue(WrittenLine(name, value)) == if '\n' in value then Invalid else Stored(value)
  {
    var k := IndexOf(value, '\n');
    EscapeKeeps(value[..k], '\n');
    if k == |value| {
      assert value[..k] == value;
      var text := Escape(value) + [QUOTE];
      assert WrittenLine(name, value) == name + "=" + [QUOTE] + text + "\n" + "";
      WrittenLineCut(name, text, "");
      UnescapeEscape(value, "");
      assert ([QUOTE] + text)[1..] == Escape(value) + [QUOTE] + "";
    } else {
      var text, after := Escape(value[..k]), Escape(value[k + 1..]) + [QUOTE] + "\n";
      EscapeBreak(value, k);
      assert WrittenLine(name, value) == name + "=" + [QUOTE] + text + "\n" + after;
      WrittenLineCut(name, text, after);
      UnescapeOpen(value[..k]);
      assert ([QUOTE] + text)[1..] == text;
    }
  }

  /** strchr(line + from, c) */
  method StrChr(line: array<char>, from: nat, c: char) returns (at: Option<nat>)
    requires Ends(line[..], from) && c != NUL
    ensures var s := CString(line[..], from);
      at == if IndexOf(s, c) < |s| then Some(from + IndexOf(s, c)) else None
  {
    CStringCells(line[..], from);
    ghost var s := CString(line[..], from);
    var k := 0;
    while line[from + k] != NUL && line[from + k] != c
      invariant k <= |s| && c !in s[..k]
      decreases |s| - k
    {
      assert s[..k + 1] == s[..k] + [s[k]];
      k := k + 1;
    }
    FirstIs(s, c, k);
    at := if line[from + k] == c then Some(from + k) else None;
  }

  lemma FirstIs(s: string, c: char, k: nat)
    requires k <= |s| && c !in s[..k] && (k < |s| ==> s[k] == c)
    ensures IndexOf(s, c) == k
  {
    var i := IndexOf(s, c);
    assert forall j | 0 <= j < k :: s[..k][j] == s[j];
    assert forall j | 0 <= j < i :: s[..i][j] == s[j];
  }

  /** Ending a string earlier. */
  lemma CutString(b: seq<char>, i: nat, k: nat)
    requires Ends(b, i) && i <= k <= i + |CString(b, i)|
    ensures Ends(b[k := NUL], i) && CString(b[k := NUL], i) == CString(b, i)[..k - i]
  {
    var s := CString(b, i);
    CStringCells(b, i);
    CStringAt(b, i);
    assert b[k := NUL][i..k] == s[..k - i];
    CStringIs(b[k := NUL], i, s[..k - i]);
  }

  /** The part of conf_read that finds the value: *p++ = 0 at '=', and a NUL at the line break. */
  method SplitLine(line: array<char>) returns (p: Option<nat>)
    requires Ends(line[..], 0)
    modifies line
    ensures var rest := AfterName(old(CString(line[..], 0)));
      && p.Some? == rest.Some?
      && (p.Some? ==> Ends(line[..], p.value) && CString(line[..], p.value) == rest.value)
  {
    ghost var b := line[..];
    var eq := StrChr(line, 0, '=');
    if eq.None? {
      return None;
    }
    var i := eq.value + 1;
    SuffixString(b, 0, i);
    line[eq.value] := NUL;
    SameString(b, line[..], i);
    CutAtBreak(line, i);
    p := Some(i);
  }

  /** p2 = strchr(p, '\n'); if (p2) *p2 = 0; */
  method CutAtBreak(line: array<char>, i: nat)
    requires Ends(line[..], i)
    modifies line
    ensures Ends(line[..], i)
    ensures var s := old(CString(line[..], i)); CString(line[..], i) == s[..IndexOf(s, '\n')]
  {
    ghost var b, s := line[..], CString(line[..], i);
    var newline := StrChr(line, i, '\n');
    if newline.Some? {
      CutString(b, i, newline.value);
      line[newline.value] := NUL;
      assert line[..] == b[newline.value := NUL];
    } else {
      assert s[..|s|] == s;
    }
  }

  /** The case of conf_read for the line of a string symbol. */
  method ReadStringLine(line: array<char>) returns (outcome: Outcome)
    requires Ends(line[..], 0)
    modifies line
    ensures outcome == LineValue(old(CString(line[..], 0)))
  {
    outcome := Skipped;
    var start := SplitLine(line);
    if start.Some? {
      var p := start.value;
      CStringCells(line[..], p);
      if line[p] == QUOTE {
        SuffixString(line[..], p, p + 1);
        var closed := UnescapeInPlace(line, p + 1);
        if !closed {
          return Invalid;
        }
        var n := StrLen(line, p + 1);
        CStringAt(line[..], p + 1);
        outcome := Stored(line[p + 1..p + 1 + n]);
      }
    }
  }

  lemma {:induction false} SameString(b: seq<char>, b': seq<char>, i: nat)
    requires i <= |b| == |b'| && forall j | i <= j < |b| :: b[j] == b'[j]
    ensures CString(b, i) == CString(b', i)
    decreases |b| - i
  {
    if i < |b| && b[i] != NUL { SameString(b, b', i + 1); }
  }
}
