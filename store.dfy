/** The password file (index.js:203-229, 391-439 and the list branch at 52-66).

    The file is one string, or nothing while it does not exist. Each stored password is the
    line `<key> - <password> (<strength>) ` followed by a newline. The existence test splits
    the whole file on single spaces and looks for a fragment that merely CONTAINS the key;
    deletion cuts out every match of the pattern `<key> - .* \(.*\)`; listing splits the file
    into lines and each line on ` - `. */
module Store {
  import opened Wrappers
  import opened Text

  /** The line appended for a new password, trailing space included. */
  function RecordLine(key: string, password: string, strength: string): (line: string)
    ensures key + " - " <= line
    ensures |line| == |key| + |password| + |strength| + 8
    ensures WholeLines(line)
  {
    key + " - " + password + " (" + strength + ") \n"
  }

  // ---------------------------------------------------------------------------
  // The existence test

  /** `fragments.find((line) => line.includes(key))`: the first fragment containing the key. */
  function FindContaining(fragments: seq<string>, key: string): (found: Option<string>)
    ensures found.None? ==> forall i :: 0 <= i < |fragments| ==> !Contains(fragments[i], key)
    ensures found.Some? ==> found.value in fragments && Contains(found.value, key)
    ensures found.Some? && fragments != [] && Contains(fragments[0], key) ==> found.value == fragments[0]
  {
    if fragments == [] then None
    else if Contains(fragments[0], key) then Some(fragments[0])
    else FindContaining(fragments[1..], key)
  }

  /** The fragment `find` returns is the first one that contains the key. */
  lemma {:induction false} FindContainingIsFirst(fragments: seq<string>, key: string) returns (i: nat)
    requires FindContaining(fragments, key).Some?
    ensures i < |fragments| && fragments[i] == FindContaining(fragments, key).value
    ensures forall j :: 0 <= j < i ==> !Contains(fragments[j], key)
    decreases |fragments|
  {
    if Contains(fragments[0], key) {
      i := 0;
    } else {
      var k := FindContainingIsFirst(fragments[1..], key);
      i := k + 1;
      forall j | 0 <= j < i ensures !Contains(fragments[j], key) {
        if j > 0 {
          assert fragments[j] == fragments[1..][j - 1];
        }
      }
    }
  }

  /** The test shared by `checkIfKeyExists` and `deleteKey`: split the file on single
      spaces, find the first fragment that contains the key, and test the result for
      truthiness (an empty fragment found counts as not found). */
  predicate KeyFound(data: string, key: string): (found: bool)
    ensures found ==> Contains(data, key)
  {
    SplitPiecesOccur(data, " ");
    match FindContaining(SplitOn(data, " "), key)
    case None => false
    case Some(fragment) =>
      ContainsTrans(data, fragment, key);
      IsTruthy(fragment)
  }

  /** A key that starts with a space-free word occurring at the front of `s` lies inside
      the first space-separated fragment of `s`. */
  lemma {:induction false} WordPrefixInFirstFragment(w: string, s: string)
    requires ' ' !in w
    requires w <= s
    ensures w <= SplitOn(s, " ")[0]
    decreases |w|
  {
    if w != [] {
      assert s == [s[0]] + s[1..];
      SplitCons(s[0], s[1..], ' ');
      assert w[1..] <= s[1..];
      assert ' ' !in w[1..] by {
        forall k | 0 <= k < |w[1..]| ensures w[1..][k] != ' ' {
          assert w[1..][k] == w[k + 1];
        }
      }
      WordPrefixInFirstFragment(w[1..], s[1..]);
      assert w == [w[0]] + w[1..];
    }
  }

  /** How the fragments of `data` relate to those of `data[1..]`: a leading space starts a
      new fragment, any other character joins the first one. */
  lemma FragmentsAfterFirst(data: string, i: nat)
    requires data != []
    requires i < |SplitOn(data[1..], " ")|
    ensures var frags, rest := SplitOn(data, " "), SplitOn(data[1..], " ");
      && (data[0] == ' ' ==> i + 1 < |frags| && frags[i + 1] == rest[i])
      && (data[0] != ' ' ==> i < |frags| && frags[0] == [data[0]] + rest[0])
      && (data[0] != ' ' && i > 0 ==> frags[i] == rest[i])
  {
    assert data == [data[0]] + data[1..];
    SplitCons(data[0], data[1..], ' ');
  }

  /** Any occurrence of a space-free key in the file lies inside one of its fragments;
      `i` is the index of such a fragment. */
  lemma {:induction false} OccurrenceInFragment(data: string, key: string) returns (i: nat)
    requires ' ' !in key
    requires Contains(data, key)
    ensures i < |SplitOn(data, " ")| && Contains(SplitOn(data, " ")[i], key)
    decreases |data|
  {
    var frags := SplitOn(data, " ");
    if key <= data {
      WordPrefixInFirstFragment(key, data);
      i := 0;
    } else {
      var j := OccurrenceInFragment(data[1..], key);
      var rest := SplitOn(data[1..], " ");
      FragmentsAfterFirst(data, j);
      if data[0] == ' ' {
        i := j + 1;
      } else if j == 0 {
        ContainsRight([data[0]], rest[0], key);
        i := 0;
      } else {
        i := j;
      }
    }
  }

  /** For a non-empty key without spaces, the existence test is exactly a substring search
      of the whole file: the key is reported as taken as soon as it occurs anywhere, for
      instance inside another record's password. */
  lemma KeyFoundIsSubstringSearch(data: string, key: string)
    requires key != []
    requires ' ' !in key
    ensures KeyFound(data, key) <==> Contains(data, key)
  {
    var frags := SplitOn(data, " ");
    var found := FindContaining(frags, key);
    if KeyFound(data, key) {
      SplitPiecesOccur(data, " ");
      assert found.value in frags;
      ContainsTrans(data, found.value, key);
    }
    if Contains(data, key) {
      var i := OccurrenceInFragment(data, key);
      assert found.Some?;
    }
  }

  /** A key holding a space is never found: no fragment of a split on spaces holds one. */
  lemma SpacedKeyNeverFound(data: string, key: string)
    requires ' ' in key
    ensures !KeyFound(data, key)
  {
    var frags := SplitOn(data, " ");
    SplitPiecesAvoidSeparator(data, ' ');
    var k :| 0 <= k < |key| && key[k] == ' ';
    forall i | 0 <= i < |frags| ensures !Contains(frags[i], key) {
      if Contains(frags[i], key) {
        ContainsChar(frags[i], key, k);
        assert false;
      }
    }
  }

  /** With the empty key every fragment matches, so the answer is the truthiness of the
      first fragment: found exactly when the file does not start with a space. */
  lemma EmptyKeyFound(data: string)
    ensures KeyFound(data, "") <==> data != [] && data[0] != ' '
  {
    var frags := SplitOn(data, " ");
    assert [] <= frags[0];
    if data != [] {
      assert data == [data[0]] + data[1..];
      SplitCons(data[0], data[1..], ' ');
    }
  }

  /** Once a record has been appended for a non-empty, space-free key, the file reports
      that key as existing. */
  lemma AppendedKeyFound(data: string, key: string, password: string, strength: string)
    requires key != []
    requires ' ' !in key
    ensures KeyFound(data + RecordLine(key, password, strength), key)
  {
    var tail := " - " + password + " (" + strength + ") \n";
    assert RecordLine(key, password, strength) == key + tail;
    assert data + RecordLine(key, password, strength) == data + (key + tail);
    assert key <= key + tail;
    ContainsLeft(key, tail, key);
    ContainsRight(data, key + tail, key);
    KeyFoundIsSubstringSearch(data + RecordLine(key, password, strength), key);
  }

  // ---------------------------------------------------------------------------
  // The deletion pattern `<key> - .* \(.*\)`, global, replaced by ''

  /** The index of the first line terminator in `s`, or `|s|`: where a `.*` must stop. */
  function LineEnd(s: string): (n: nat)
    ensures n <= |s|
    ensures n < |s| ==> IsLineTerminator(s[n])
    decreases |s|
  {
    if s == [] || IsLineTerminator(s[0]) then 0 else 1 + LineEnd(s[1..])
  }

  /** No line terminator comes before `LineEnd(s)`: it is the first one. */
  lemma {:induction false} LineEndIsFirst(s: string)
    ensures forall k :: 0 <= k < LineEnd(s) ==> !IsLineTerminator(s[k])
    decreases |s|
  {
    if s != [] && !IsLineTerminator(s[0]) {
      LineEndIsFirst(s[1..]);
      forall k | 1 <= k < LineEnd(s) ensures !IsLineTerminator(s[k]) {
        assert s[k] == s[1..][k - 1];
      }
    }
  }

  /** `s.lastIndexOf(c)`, with no index when `c` does not occur. */
  function LastIndexOf(s: string, c: char): (r: Option<nat>)
    ensures r.Some? ==> r.value < |s| && s[r.value] == c
    decreases |s|
  {
    if s == [] then None
    else if s[|s| - 1] == c then Some(|s| - 1)
    else LastIndexOf(s[..|s| - 1], c)
  }

  /** `LastIndexOf` finds the last occurrence, and finds none only when there is none. */
  lemma {:induction false} LastIndexOfIsLast(s: string, c: char)
    ensures var r := LastIndexOf(s, c);
      && (r.Some? ==> forall k :: r.value < k < |s| ==> s[k] != c)
      && (r.None? ==> c !in s)
    decreases |s|
  {
    if s != [] && s[|s| - 1] != c {
      var init := s[..|s| - 1];
      LastIndexOfIsLast(init, c);
      assert s == init + [s[|s| - 1]];
    }
  }

  /** The length of the part of a match after its literal head `<key> - `, read from the
      text `rest` that follows the head. Both `.*` stay within the first line of `rest`;
      greedy backtracking makes the match end just after the last `)` of that line, and it
      exists when a ` (` lies before that `)`. */
  function TailMatch(rest: string): (m: Option<nat>)
    ensures m.Some? ==> 0 < m.value <= LineEnd(rest)
  {
    var line := rest[..LineEnd(rest)];
    match LastIndexOf(line, ')')
    case None => None
    case Some(close) => if Contains(line[..close], " (") then Some(close + 1) else None
  }

  /** Where the tail of a match ends and when it exists: just after a `)` with no `)`
      after it in the line and a ` (` before it; and there is none when no ` (` in the
      line comes before a `)` of the line. */
  lemma TailMatchEnds(rest: string)
    ensures var m := TailMatch(rest);
      && (m.Some? ==> rest[m.value - 1] == ')' && Contains(rest[..m.value - 1], " (")
                      && forall k :: m.value <= k < LineEnd(rest) ==> rest[k] != ')')
      && (m.None? ==>
            (forall p, q :: 0 <= p && p + 1 < q < LineEnd(rest) && rest[p] == ' ' && rest[p + 1] == '('
               ==> rest[q] != ')'))
  {
    var line := rest[..LineEnd(rest)];
    LastIndexOfIsLast(line, ')');
    match LastIndexOf(line, ')')
    case None =>
      NoParenInLine(rest);
    case Some(close) =>
      if Contains(line[..close], " (") {
        TailMatchFound(rest, close);
      } else {
        NoOpenBeforeParen(rest, close);
      }
  }

  lemma TailMatchFound(rest: string, close: nat)
    requires LastIndexOf(rest[..LineEnd(rest)], ')') == Some(close)
    requires Contains(rest[..LineEnd(rest)][..close], " (")
    ensures TailMatch(rest) == Some(close + 1)
    ensures rest[close] == ')' && Contains(rest[..close], " (")
    ensures forall k :: close + 1 <= k < LineEnd(rest) ==> rest[k] != ')'
  {
    var line := rest[..LineEnd(rest)];
    LastIndexOfIsLast(line, ')');
    assert rest[..close] == line[..close];
    forall k | close + 1 <= k < LineEnd(rest) ensures rest[k] != ')' {
      assert rest[k] == line[k];
    }
  }

  lemma NoParenInLine(rest: string)
    requires ')' !in rest[..LineEnd(rest)]
    ensures forall q :: 0 <= q < LineEnd(rest) ==> rest[q] != ')'
  {
    forall q | 0 <= q < LineEnd(rest) ensures rest[q] != ')' {
      assert rest[q] == rest[..LineEnd(rest)][q];
    }
  }

  lemma NoOpenBeforeParen(rest: string, close: nat)
    requires LastIndexOf(rest[..LineEnd(rest)], ')') == Some(close)
    requires !Contains(rest[..LineEnd(rest)][..close], " (")
    ensures forall p, q :: 0 <= p && p + 1 < q < LineEnd(rest) && rest[p] == ' ' && rest[p + 1] == '(' ==>
              rest[q] != ')'
  {
    var line := rest[..LineEnd(rest)];
    var before := line[..close];
    LastIndexOfIsLast(line, ')');
    forall p, q | 0 <= p && p + 1 < q < LineEnd(rest) && rest[p] == ' ' && rest[p + 1] == '('
      ensures rest[q] != ')'
    {
      if rest[q] == ')' {
        assert line[q] == ')';
        assert before[p..][..2] == " (" by {
          assert before[p] == ' ' && before[p + 1] == '(';
        }
        ContainsAt(before, " (", p);
      }
    }
  }

  /** The length of the match of `<key> - .* \(.*\)` that starts at the first character of
      `s`, if there is one: the key and ` - ` literally, then the tail. */
  function MatchAt(s: string, key: string): (m: Option<nat>)
    ensures m.Some? ==> |key| + 3 < m.value <= |s| && s[m.value - 1] == ')'
  {
    var head := key + " - ";
    if !(head <= s) then None
    else
      TailMatchEnds(s[|head|..]);
      match TailMatch(s[|head|..])
      case None => None
      case Some(n) =>
        assert s[|head| + n - 1] == s[|head|..][n - 1];
        Some(|head| + n)
  }

  /** `data.replace(new RegExp(`${key} - .* \\(.*\\)`, 'g'), '')`: scanning from the left,
      each match is cut out and the scan resumes right after it. */
  function RemoveRecords(s: string, key: string): (r: string)
    ensures |r| <= |s|
    decreases |s|
  {
    if s == [] then []
    else match MatchAt(s, key)
      case Some(n) => RemoveRecords(s[n..], key)
      case None => [s[0]] + RemoveRecords(s[1..], key)
  }

  /** The last character of the text survives the replacement unless it is a `)`, since
      every match ends with one. */
  lemma {:induction false} RemoveKeepsLast(s: string, key: string)
    requires s != [] && s[|s| - 1] != ')'
    ensures var r := RemoveRecords(s, key); r != [] && r[|r| - 1] == s[|s| - 1]
    decreases |s|, 1
  {
    if MatchAt(s, key).Some? {
      RemoveKeepsLastMatch(s, key);
    } else {
      RemoveKeepsLastKeep(s, key);
    }
  }

  /** `RemoveKeepsLast` where a match starts at the front: the match stops before the end. */
  lemma {:induction false} RemoveKeepsLastMatch(s: string, key: string)
    requires s != [] && s[|s| - 1] != ')'
    requires MatchAt(s, key).Some?
    ensures var r := RemoveRecords(s, key); r != [] && r[|r| - 1] == s[|s| - 1]
    decreases |s|, 0
  {
    var n := MatchAt(s, key).value;
    var rest := s[n..];
    RemoveStepMatch(s, key, n);
    SameLast(s, n);
    RemoveKeepsLast(rest, key);
    SameLastOf(RemoveRecords(s, key), RemoveRecords(rest, key), s[|s| - 1]);
  }

  /** `RemoveKeepsLast` where the first character is kept. */
  lemma {:induction false} RemoveKeepsLastKeep(s: string, key: string)
    requires s != [] && s[|s| - 1] != ')'
    requires MatchAt(s, key).None?
    ensures var r := RemoveRecords(s, key); r != [] && r[|r| - 1] == s[|s| - 1]
    decreases |s|, 0
  {
    var rest := s[1..];
    RemoveStepKeep(s, key);
    if |s| > 1 {
      SameLast(s, 1);
      RemoveKeepsLast(rest, key);
    } else {
      assert rest == [];
    }
    ConsLastOf(RemoveRecords(s, key), s[0], RemoveRecords(rest, key), s[|s| - 1]);
  }

  lemma SameLastOf(whole: string, part: string, c: char)
    requires whole == part && part != [] && part[|part| - 1] == c
    ensures whole != [] && whole[|whole| - 1] == c
  {
  }

  lemma ConsLastOf(whole: string, c: char, part: string, last: char)
    requires whole == [c] + part
    requires if part == [] then c == last else part[|part| - 1] == last
    ensures whole != [] && whole[|whole| - 1] == last
  {
  }

  lemma SameLast(s: string, n: nat)
    requires n < |s|
    ensures s[n..] != [] && s[n..][|s[n..]| - 1] == s[|s| - 1]
  {
  }

  /** Deleting keeps a file of whole lines a file of whole lines. */
  lemma RemoveKeepsWholeLines(s: string, key: string)
    requires WholeLines(s)
    ensures WholeLines(RemoveRecords(s, key))
  {
    if s != [] {
      RemoveKeepsLast(s, key);
    }
  }

  /** Text without `<key> - ` anywhere is left exactly as it is. */
  lemma {:induction false} RemoveWithoutHead(s: string, key: string)
    requires !Contains(s, key + " - ")
    ensures RemoveRecords(s, key) == s
    decreases |s|
  {
    if s != [] {
      assert MatchAt(s, key).None?;
      RemoveWithoutHead(s[1..], key);
      assert s == [s[0]] + s[1..];
    }
  }

  lemma {:induction false} LineEndAcross(a: string, b: string)
    requires LineEnd(a) < |a|
    ensures LineEnd(a + b) == LineEnd(a)
    decreases |a|
  {
    if !IsLineTerminator(a[0]) {
      assert (a + b)[1..] == a[1..] + b;
      LineEndAcross(a[1..], b);
    }
  }

  /** A single-line prefix of `s` ends before the first line terminator of `s`. */
  lemma PrefixWithinLine(head: string, s: string)
    requires SingleLine(head)
    requires head <= s
    ensures |head| <= LineEnd(s)
  {
  }

  /** A single-line head is a prefix of `a + b` exactly when it is one of `a`, once `a`
      holds a line terminator. */
  lemma HeadAcross(head: string, a: string, b: string)
    requires SingleLine(head)
    requires LineEnd(a) < |a|
    ensures head <= a + b <==> head <= a
  {
    LineEndAcross(a, b);
    if head <= a + b {
      PrefixWithinLine(head, a + b);
      assert (a + b)[..|head|] == a[..|head|];
    }
  }

  /** The tail of a match never looks past the first line terminator. */
  lemma TailMatchAcross(x: string, b: string)
    requires LineEnd(x) < |x|
    ensures TailMatch(x + b) == TailMatch(x)
  {
    var e := LineEnd(x);
    LineEndAcross(x, b);
    assert (x + b)[..e] == x[..e];
    TailMatchOfLine(x + b, x);
  }

  /** The tail of a match is determined by the first line alone. */
  lemma TailMatchOfLine(x: string, y: string)
    requires x[..LineEnd(x)] == y[..LineEnd(y)]
    ensures TailMatch(x) == TailMatch(y)
  {
  }

  lemma HeadSingleLine(key: string)
    requires SingleLine(key)
    ensures SingleLine(key + " - ")
  {
    var head := key + " - ";
    forall k | 0 <= k < |head| ensures !IsLineTerminator(head[k]) {
      if k < |key| {
        assert head[k] == key[k];
      }
    }
  }

  /** The text after a prefix that ends within the first line still holds a line terminator. */
  lemma LineEndAfterPrefix(a: string, h: nat)
    requires h <= LineEnd(a) < |a|
    ensures LineEnd(a[h..]) < |a[h..]|
  {
    var x := a[h..];
    assert IsLineTerminator(x[LineEnd(a) - h]);
    LineEndIsFirst(x);
  }

  lemma DropConcat(a: string, b: string, h: nat)
    requires h <= |a|
    ensures (a + b)[h..] == a[h..] + b
  {
  }

  /** A match whose head is present is the head followed by the tail match. */
  lemma MatchAtHead(s: string, key: string)
    requires key + " - " <= s
    ensures var t := TailMatch(s[|key + " - "|..]);
      MatchAt(s, key) == if t.None? then None else Some(|key + " - "| + t.value)
  {
  }

  /** Text that does not start with `<key> - ` starts no match. */
  lemma MatchAtNoHead(s: string, key: string)
    requires !(key + " - " <= s)
    ensures MatchAt(s, key).None?
  {
  }

  /** Two texts that agree on whether they start with the head, and on the tail match
      after it, agree on the match. */
  lemma MatchAtSameTail(s1: string, s2: string, key: string)
    requires key + " - " <= s1 <==> key + " - " <= s2
    requires key + " - " <= s1 ==>
      TailMatch(s1[|key + " - "|..]) == TailMatch(s2[|key + " - "|..])
    ensures MatchAt(s1, key) == MatchAt(s2, key)
  {
  }

  /** A match of a single-line key never looks past the first line terminator. */
  lemma MatchAtAcross(a: string, b: string, key: string)
    requires SingleLine(key)
    requires LineEnd(a) < |a|
    ensures MatchAt(a + b, key) == MatchAt(a, key)
  {
    var head := key + " - ";
    assert head <= a + b <==> head <= a by {
      HeadSingleLine(key);
      HeadAcross(head, a, b);
    }
    assert head <= a + b ==> TailMatch((a + b)[|head|..]) == TailMatch(a[|head|..]) by {
      if head <= a {
        var x := a[|head|..];
        HeadSingleLine(key);
        PrefixWithinLine(head, a);
        LineEndAfterPrefix(a, |head|);
        DropConcat(a, b, |head|);
        TailMatchAcross(x, b);
      }
    }
    MatchAtSameTail(a + b, a, key);
  }

  /** One step of the replacement where a match starts: the match is cut out. */
  lemma RemoveStepMatch(s: string, key: string, n: nat)
    requires s != [] && MatchAt(s, key) == Some(n)
    ensures n <= |s| && RemoveRecords(s, key) == RemoveRecords(s[n..], key)
  {
  }

  /** One step of the replacement where no match starts: the character is kept. */
  lemma RemoveStepKeep(s: string, key: string)
    requires s != [] && MatchAt(s, key).None?
    ensures RemoveRecords(s, key) == [s[0]] + RemoveRecords(s[1..], key)
  {
  }

  /** Deletion works line by line: text up to a line terminator and the text after it are
      processed independently. */
  lemma {:induction false} RemoveAcrossLines(a: string, b: string, key: string)
    requires SingleLine(key)
    requires a == [] || IsLineTerminator(a[|a| - 1])
    ensures RemoveRecords(a + b, key) == RemoveRecords(a, key) + RemoveRecords(b, key)
    decreases |a|, 1
  {
    if a == [] {
      assert a + b == b;
    } else if MatchAt(a, key).Some? {
      RemoveAcrossMatch(a, b, key);
    } else {
      RemoveAcrossKeep(a, b, key);
    }
  }

  /** The first step of the replacement on `a + b` is the one on `a`, when `a` holds a
      line terminator. */
  lemma StepAcross(a: string, b: string, key: string)
    requires SingleLine(key)
    requires a != [] && IsLineTerminator(a[|a| - 1])
    ensures MatchAt(a, key).Some? ==> var n := MatchAt(a, key).value;
      n <= |a| && RemoveRecords(a + b, key) == RemoveRecords(a[n..] + b, key)
    ensures MatchAt(a, key).None? ==>
      RemoveRecords(a + b, key) == [a[0]] + RemoveRecords(a[1..] + b, key)
  {
    assert LineEnd(a) < |a| by {
      LineEndIsFirst(a);
    }
    MatchAtAcross(a, b, key);
    if MatchAt(a, key).Some? {
      var n := MatchAt(a, key).value;
      RemoveStepMatch(a + b, key, n);
      DropConcat(a, b, n);
    } else {
      RemoveStepKeep(a + b, key);
      DropConcat(a, b, 1);
      assert (a + b)[0] == a[0];
    }
  }

  /** `RemoveAcrossLines` where a match starts at the front of `a`. */
  lemma {:induction false} RemoveAcrossMatch(a: string, b: string, key: string)
    requires SingleLine(key)
    requires a != [] && IsLineTerminator(a[|a| - 1])
    requires MatchAt(a, key).Some?
    ensures RemoveRecords(a + b, key) == RemoveRecords(a, key) + RemoveRecords(b, key)
    decreases |a|, 0
  {
    var n := MatchAt(a, key).value;
    var rest := a[n..];
    assert rest[|rest| - 1] == a[|a| - 1];
    StepAcross(a, b, key);
    RemoveStepMatch(a, key, n);
    RemoveAcrossLines(rest, b, key);
  }

  /** `RemoveAcrossLines` where no match starts at the front of `a`. */
  lemma {:induction false} RemoveAcrossKeep(a: string, b: string, key: string)
    requires SingleLine(key)
    requires a != [] && IsLineTerminator(a[|a| - 1])
    requires MatchAt(a, key).None?
    ensures RemoveRecords(a + b, key) == RemoveRecords(a, key) + RemoveRecords(b, key)
    decreases |a|, 0
  {
    var rest := a[1..];
    if |a| > 1 {
      assert rest[|rest| - 1] == a[|a| - 1];
    }
    StepAcross(a, b, key);
    RemoveStepKeep(a, key);
    RemoveAcrossLines(rest, b, key);
    KeptFront(a[0], RemoveRecords(a + b, key), RemoveRecords(a, key),
      RemoveRecords(rest + b, key), RemoveRecords(rest, key), RemoveRecords(b, key));
  }

  /** The bookkeeping of `RemoveAcrossKeep`: a character kept in front of both sides. */
  lemma KeptFront(c: char, whole: string, left: string, restWhole: string, restLeft: string, right: string)
    requires whole == [c] + restWhole && left == [c] + restLeft
    requires restWhole == restLeft + right
    ensures whole == left + right
  {
  }

  lemma {:induction false} LineEndAfter(x: string, y: string)
    requires SingleLine(x)
    ensures LineEnd(x + y) == |x| + LineEnd(y)
    decreases |x|
  {
    if x == [] {
      assert x + y == y;
    } else {
      assert x[0] in x;
      assert (x + y)[1..] == x[1..] + y;
      assert SingleLine(x[1..]) by {
        forall c | c in x[1..] ensures c in x {
          var k :| 0 <= k < |x[1..]| && x[1..][k] == c;
          assert x[k + 1] == c;
        }
      }
      LineEndAfter(x[1..], y);
    }
  }

  /** In a record line's text after the key's ` - `, the last `)` is the one closing the
      strength, and ` (` comes before it. */
  lemma RecordTailParentheses(password: string, strength: string)
    ensures var line := password + " (" + strength + ") ";
      && LastIndexOf(line, ')') == Some(|line| - 2)
      && Contains(line[..|line| - 2], " (")
  {
    var line := password + " (" + strength + ") ";
    assert line[..|line| - 1] == password + " (" + strength + ")";
    assert line[..|line| - 2] == password + (" (" + strength);
    assert " (" <= " (" + strength;
    ContainsLeft(" (", strength, " (");
    ContainsRight(password, " (" + strength, " (");
  }

  /** After the key's ` - `, the record line's tail runs up to and including the `)`
      closing the strength. */
  lemma RecordTailMatches(password: string, strength: string, rest: string)
    requires SingleLine(password) && SingleLine(strength)
    ensures TailMatch(password + " (" + strength + ") " + "\n" + rest)
      == Some(|password + " (" + strength + ")"|)
  {
    var line := password + " (" + strength + ") ";
    var x := line + ("\n" + rest);
    assert password + " (" + strength + ") " + "\n" + rest == x;
    assert x[..LineEnd(x)] == line by {
      assert SingleLine(" (") && SingleLine(") ");
      SingleLineConcat(password, " (");
      SingleLineConcat(password + " (", strength);
      SingleLineConcat(password + " (" + strength, ") ");
      LineEndAfter(line, "\n" + rest);
    }
    RecordTailParentheses(password, strength);
  }

  /** The match starting at a record line for its own key spans the line's text up to and
      including the `)` closing the strength. */
  lemma RecordMatch(key: string, password: string, strength: string, rest: string)
    requires SingleLine(password) && SingleLine(strength)
    ensures MatchAt(RecordLine(key, password, strength) + rest, key)
      == Some(|RecordLine(key, password, strength)| - 2)
  {
    var head := key + " - ";
    var tail := password + " (" + strength + ") " + "\n" + rest;
    var s := RecordLine(key, password, strength) + rest;
    RecordLineParts(key, password, strength, rest);
    PrefixOfConcat(head, tail);
    RecordTailMatches(password, strength, rest);
    MatchAtHead(s, key);
  }

  /** A record line followed by more text is the key's head followed by the rest. */
  lemma RecordLineParts(key: string, password: string, strength: string, rest: string)
    ensures RecordLine(key, password, strength) + rest
      == (key + " - ") + (password + " (" + strength + ") " + "\n" + rest)
  {
  }

  /** The `" \n"` left behind never starts a match. */
  lemma ResidueKept(key: string, rest: string)
    requires SingleLine(key)
    ensures RemoveRecords(" \n" + rest, key) == " \n" + RemoveRecords(rest, key)
  {
    var head := key + " - ";
    var t := " \n" + rest;
    var u := "\n" + rest;
    assert t[1..] == u && t[0] == ' ';
    assert u[1..] == rest && u[0] == '\n';
    assert !(head <= t) by {
      assert t[1] == '\n';
      if |key| >= 2 {
        assert head[1] == key[1];
        assert key[1] in key;
      }
    }
    assert !(head <= u) by {
      if |key| >= 1 {
        assert head[0] == key[0];
        assert key[0] in key;
      }
    }
    MatchAtNoHead(t, key);
    RemoveStepKeep(t, key);
    MatchAtNoHead(u, key);
    RemoveStepKeep(u, key);
    assert [' '] + (['\n'] + RemoveRecords(rest, key)) == " \n" + RemoveRecords(rest, key);
  }

  /** The stored line of the key is cut down to its trailing `" \n"`. */
  lemma RemoveRecordLine(key: string, password: string, strength: string, rest: string)
    requires SingleLine(key) && SingleLine(password) && SingleLine(strength)
    ensures RemoveRecords(RecordLine(key, password, strength) + rest, key) == " \n" + RemoveRecords(rest, key)
  {
    var s := RecordLine(key, password, strength) + rest;
    var n := |RecordLine(key, password, strength)| - 2;
    RecordMatch(key, password, strength, rest);
    assert s[n..] == " \n" + rest;
    ResidueKept(key, rest);
  }

  /** Deleting a key whose only record line sits between lines that never mention
      `<key> - ` leaves those lines untouched and leaves `" \n"` where the record was. */
  lemma RemoveOnlyRecord(before: string, key: string, password: string, strength: string, after: string)
    requires SingleLine(key) && SingleLine(password) && SingleLine(strength)
    requires WholeLines(before)
    requires !Contains(before, key + " - ") && !Contains(after, key + " - ")
    ensures RemoveRecords(before + RecordLine(key, password, strength) + after, key) == before + " \n" + after
  {
    var record := RecordLine(key, password, strength);
    var whole := before + (record + after);
    ConcatAssoc(before, record, after);
    assert RemoveRecords(whole, key) == RemoveRecords(before, key) + RemoveRecords(record + after, key) by {
      RemoveAcrossLines(before, record + after, key);
    }
    assert RemoveRecords(before, key) == before by {
      RemoveWithoutHead(before, key);
    }
    assert RemoveRecords(record + after, key) == " \n" + RemoveRecords(after, key) by {
      RemoveRecordLine(key, password, strength, after);
    }
    assert RemoveRecords(after, key) == after by {
      RemoveWithoutHead(after, key);
    }
    JoinThree(RemoveRecords(whole, key), RemoveRecords(before, key),
      RemoveRecords(record + after, key), RemoveRecords(after, key), before, " \n", after);
  }

  /** The bookkeeping of `RemoveOnlyRecord`: three results, each part known. */
  lemma JoinThree(whole: string, left: string, right: string, rightRest: string,
                  x: string, y: string, z: string)
    requires whole == left + right && left == x
    requires right == y + rightRest && rightRest == z
    ensures whole == x + y + z
  {
  }

  // ---------------------------------------------------------------------------
  // Listing

  /** One listed line: the text before the first ` - ` and the text up to the next one
      (absent when the line has no ` - `). */
  datatype Entry = Entry(key: string, password: Option<string>)

  /** `const [key, password] = line.split(' - ')`. */
  function ParseLine(line: string): (e: Entry)
    ensures e.key <= line
    ensures !Contains(line, " - ") ==> e == Entry(line, None)
  {
    var parts := SplitOn(line, " - ");
    SplitPiecesOccur(line, " - ");
    if !Contains(line, " - ") then
      SplitWithoutDash(line);
      Entry(parts[0], None)
    else
      Entry(parts[0], if |parts| > 1 then Some(parts[1]) else None)
  }

  /** A line whose first ` - ` sits at `p` lists the text before it as the key and the text
      up to the next ` - ` as the password. */
  lemma ParseLineAtFirst(line: string, p: nat)
    requires OccursAt(line, " - ", p)
    requires forall i :: 0 <= i < p ==> !OccursAt(line, " - ", i)
    ensures ParseLine(line) == Entry(line[..p], Some(ParseLine(line[p + 3..]).key))
  {
    SplitAtFirst(line, " - ", p);
    assert line[p..][..3] == line[p..p + 3];
    ContainsAt(line, " - ", p);
  }

  /** `lines.filter((line) => line !== '' && line !== ' ')`, order kept. */
  function KeepLines(lines: seq<string>): (kept: seq<string>)
    ensures |kept| <= |lines|
    ensures forall l :: l in kept <==> l in lines && l != "" && l != " "
  {
    if lines == [] then []
    else (if lines[0] != "" && lines[0] != " " then [lines[0]] else []) + KeepLines(lines[1..])
  }

  /** `lines.map(...)` with `ParseLine`, order kept. */
  function ParseLines(lines: seq<string>): (entries: seq<Entry>)
    ensures |entries| == |lines|
    ensures forall i :: 0 <= i < |lines| ==> entries[i] == ParseLine(lines[i])
  {
    if lines == [] then [] else [ParseLine(lines[0])] + ParseLines(lines[1..])
  }

  /** The list branch: split the file on newlines, drop empty and single-space lines and
      split each remaining line on ` - `. */
  function ParseList(data: string): (entries: seq<Entry>)
    ensures |entries| <= |SplitOn(data, "\n")|
    ensures '\n' !in data ==> entries == if data == "" || data == " " then [] else [ParseLine(data)]
  {
    if '\n' !in data then
      SplitWithoutSeparator(data, '\n');
      ParseLines(KeepLines(SplitOn(data, "\n")))
    else
      ParseLines(KeepLines(SplitOn(data, "\n")))
  }

  lemma {:induction false} KeepLinesConcat(a: seq<string>, b: seq<string>)
    ensures KeepLines(a + b) == KeepLines(a) + KeepLines(b)
    decreases |a|
  {
    if a == [] {
      assert a + b == b;
    } else {
      assert (a + b)[1..] == a[1..] + b;
      KeepLinesConcat(a[1..], b);
    }
  }

  lemma ParseLinesConcat(a: seq<string>, b: seq<string>)
    ensures ParseLines(a + b) == ParseLines(a) + ParseLines(b)
  {
  }

  /** The lines of a block of whole lines followed by more text: the block's own lines,
      without the empty piece after its last newline, then the lines of the rest. */
  lemma SplitAfterWholeLines(a: string, b: string)
    requires WholeLines(a)
    ensures var A := SplitOn(a, "\n");
      && A[|A| - 1] == []
      && SplitOn(a + b, "\n") == A[..|A| - 1] + SplitOn(b, "\n")
  {
    var A := SplitOn(a, "\n");
    assert A[|A| - 1] == [] by {
      if a != [] {
        SplitEndingWithSeparator(a, '\n');
      }
    }
    SplitConcat(a, b, '\n');
    GlueAfterEmptyPiece(A, SplitOn(b, "\n"));
  }

  /** Listing works line by line: the listing of two blocks of whole lines is the
      listing of the first followed by that of the second. */
  lemma ParseListConcat(a: string, b: string)
    requires WholeLines(a)
    ensures ParseList(a + b) == ParseList(a) + ParseList(b)
  {
    var A, B := SplitOn(a, "\n"), SplitOn(b, "\n");
    SplitAfterWholeLines(a, b);
    var init := A[..|A| - 1];
    assert KeepLines(A) == KeepLines(init) by {
      assert A == init + [[]];
      KeepLinesConcat(init, [[]]);
      assert [""][1..] == [];
      assert KeepLines([""]) == [];
    }
    KeepLinesConcat(init, B);
    ParseLinesConcat(KeepLines(init), KeepLines(B));
  }

  /** A string none of whose positions starts ` - ` splits on ` - ` into itself. */
  lemma {:induction false} SplitWithoutDash(s: string)
    requires !Contains(s, " - ")
    ensures SplitOn(s, " - ") == [s]
    decreases |s|
  {
    if |s| >= 3 {
      assert s[..3] != " - ";
      SplitWithoutDash(s[1..]);
      assert s == [s[0]] + s[1..];
    }
  }

  /** A space-free key followed by ` - ` is the first piece of a split on ` - `. */
  lemma {:induction false} SplitAfterKey(key: string, rest: string)
    requires ' ' !in key
    ensures SplitOn(key + " - " + rest, " - ") == [key] + SplitOn(rest, " - ")
    decreases |key|
  {
    var s := key + " - " + rest;
    if key == [] {
      assert s == " - " + rest;
      assert s[..3] == " - ";
      assert s[3..] == rest;
    } else {
      assert s[..3] != " - " by {
        assert s[0] == key[0];
        assert key[0] in key;
      }
      assert s[1..] == key[1..] + " - " + rest;
      assert ' ' !in key[1..] by {
        forall k | 0 <= k < |key[1..]| ensures key[1..][k] != ' ' {
          assert key[1..][k] == key[k + 1];
        }
      }
      SplitAfterKey(key[1..], rest);
      assert [key[0]] + key[1..] == key;
    }
  }

  /** The part of a record line after the key's ` - ` holds no further ` - `. */
  lemma RecordTailHasNoDash(password: string, strength: string)
    requires Word(password) && Word(strength)
    ensures !Contains(password + " (" + strength + ") ", " - ")
  {
    var tail := password + " (" + strength + ") ";
    forall i | 0 <= i <= |tail| ensures !(" - " <= tail[i..]) {
      if i < |password| {
        assert tail[i] == password[i];
        assert password[i] in password;
      } else if i == |password| {
        assert tail[i + 1] == '(';
      } else if i == |password| + 1 {
        assert tail[i] == '(';
      } else if i < |password| + 2 + |strength| {
        assert tail[i] == strength[i - |password| - 2];
        assert strength[i - |password| - 2] in strength;
      } else if i == |password| + 2 + |strength| {
        assert tail[i] == ')';
      }
    }
    NoOccurrence(tail, " - ");
  }

  /** A line without a newline, followed by one, splits into the line and an empty piece. */
  lemma SplitSingleLine(line: string)
    requires '\n' !in line
    ensures SplitOn(line + "\n", "\n") == [line, []]
  {
    assert SplitOn("\n", "\n") == [[], []] by {
      assert "\n" == ['\n'] + [];
      SplitCons('\n', [], '\n');
    }
    assert SplitOn(line + "\n", "\n") == Glue([line], [[], []]) by {
      SplitConcat(line, "\n", '\n');
      SplitWithoutSeparator(line, '\n');
    }
    GlueSingle(line, [[], []]);
    assert line + [] == line;
  }

  /** A single line that is neither empty nor one space lists as its own entry. */
  lemma ListSingleLine(line: string)
    requires '\n' !in line
    requires line != "" && line != " "
    ensures ParseList(line + "\n") == [ParseLine(line)]
  {
    SplitSingleLine(line);
    assert [line, []][1..] == [[]];
    assert [""][1..] == [];
    assert KeepLines([""]) == [];
  }

  /** A line `<key> - <tail>` with a space-free key and no further ` - ` parses as that key
      and that tail. */
  lemma ParseRecordText(key: string, tail: string)
    requires ' ' !in key
    requires !Contains(tail, " - ")
    ensures ParseLine(key + " - " + tail) == Entry(key, Some(tail))
  {
    SplitWithoutDash(tail);
    SplitAfterKey(key, tail);
  }

  /** A stored record line lists as its key and its password with the strength suffix. */
  lemma ParseRecordLine(key: string, password: string, strength: string)
    requires Word(key) && Word(password) && Word(strength)
    ensures ParseList(RecordLine(key, password, strength)) == [Entry(key, Some(password + " (" + strength + ") "))]
  {
    var tail := password + " (" + strength + ") ";
    var line := key + " - " + tail;
    assert RecordLine(key, password, strength) == line + "\n";
    assert '\n' !in line by {
      forall k | 0 <= k < |line| ensures line[k] != '\n' {
        if k < |key| {
          assert line[k] == key[k];
        } else if k >= |key| + 3 && k < |key| + 3 + |password| {
          assert line[k] == password[k - |key| - 3];
        } else if k >= |key| + 5 + |password| && k < |key| + 5 + |password| + |strength| {
          assert line[k] == strength[k - |key| - 5 - |password|];
        }
      }
    }
    assert |line| >= 3 && line[|line| - 1] == ' ' && line[|line| - 2] == ')';
    ListSingleLine(line);
    RecordTailHasNoDash(password, strength);
    ParseRecordText(key, tail);
  }

  /** Appending a record to a file of whole lines adds exactly its entry to the end of the
      listing, and nothing else changes. */
  lemma AppendThenList(data: string, key: string, password: string, strength: string)
    requires WholeLines(data)
    requires Word(key) && Word(password) && Word(strength)
    ensures ParseList(data + RecordLine(key, password, strength))
      == ParseList(data) + [Entry(key, Some(password + " (" + strength + ") "))]
  {
    ParseListConcat(data, RecordLine(key, password, strength));
    ParseRecordLine(key, password, strength);
  }

  /** A file holding one record among lines that never mention `<key> - ` lists that
      record's entry in its place. */
  lemma ListWithRecord(before: string, key: string, password: string, strength: string, after: string)
    requires WholeLines(before)
    requires Word(key) && Word(password) && Word(strength)
    ensures ParseList(before + RecordLine(key, password, strength) + after)
      == ParseList(before) + [Entry(key, Some(password + " (" + strength + ") "))] + ParseList(after)
  {
    var record := RecordLine(key, password, strength);
    ConcatAssoc(before, record, after);
    ParseListConcat(before, record + after);
    ParseListConcat(record, after);
    ParseRecordLine(key, password, strength);
  }

  /** Deleting a key whose only record sits among lines that never mention `<key> - `
      removes exactly that entry from the listing: the residual `" \n"` line is filtered. */
  lemma DeleteThenList(before: string, key: string, password: string, strength: string, after: string)
    requires WholeLines(before)
    requires Word(key) && Word(password) && Word(strength)
    requires !Contains(before, key + " - ") && !Contains(after, key + " - ")
    ensures ParseList(RemoveRecords(before + RecordLine(key, password, strength) + after, key))
      == ParseList(before) + ParseList(after)
  {
    RemoveOnlyRecord(before, key, password, strength, after);
    ListAroundResidue(before, after);
  }

  /** A `" \n"` line between whole lines adds nothing to the listing. */
  lemma ListAroundResidue(before: string, after: string)
    requires WholeLines(before)
    ensures ParseList(before + " \n" + after) == ParseList(before) + ParseList(after)
  {
    var residue := " \n";
    assert ParseList(residue + after) == ParseList(after) by {
      assert residue[|residue| - 1] == '\n';
      ParseListConcat(residue, after);
      ResidueNotListed();
    }
    assert ParseList(before + (residue + after)) == ParseList(before) + ParseList(residue + after) by {
      ParseListConcat(before, residue + after);
    }
    ConcatAssoc(before, residue, after);
  }

  /** The `" \n"` a deletion leaves behind is a single-space line, which listing drops. */
  lemma ResidueNotListed()
    ensures ParseList(" \n") == []
  {
    assert SplitOn(" \n", "\n") == [" ", []] by {
      assert " \n" == [' '] + "\n";
      assert "\n" == ['\n'] + [];
      SplitCons('\n', [], '\n');
      assert SplitOn("\n", "\n") == [[], []];
      SplitCons(' ', "\n", '\n');
      assert [' '] + [] == " ";
    }
    assert [" ", []][1..] == [[]];
    assert [""][1..] == [];
  }

  // ---------------------------------------------------------------------------
  // The file

  /** The messages `deleteKey` can end with. */
  datatype DeleteOutcome = NoPasswordsYet | KeyMissing | Deleted

  class PasswordFile {
    /** The text of the password file; `None` while it does not exist. */
    var contents: Option<string>

    constructor (initial: Option<string>)
      ensures contents == initial
    {
      contents := initial;
    }

    /** The tool only ever writes whole lines: an absent file, or one ending in a newline. */
    predicate Valid()
      reads this
    {
      contents.Some? ==> WholeLines(contents.value)
    }

    /** `checkIfKeyExists`: reports whether the key is taken; when it is not (or when there
        is no file yet) appends the record line for the new password. */
    method CheckIfKeyExists(key: string, strength: string, password: string) returns (taken: bool)
      modifies this
      ensures old(contents).None? ==> !taken && contents == Some(RecordLine(key, password, strength))
      ensures old(contents).Some? ==> taken == KeyFound(old(contents).value, key)
      ensures old(contents).Some? && taken ==> contents == old(contents)
      ensures old(contents).Some? && !taken ==>
        contents == Some(old(contents).value + RecordLine(key, password, strength))
      ensures old(Valid()) ==> Valid()
    {
      if contents.Some? {
        var data := contents.value;
        var lines := SplitOn(data, " ");
        var line := FindContaining(lines, key);
        if line.Some? && IsTruthy(line.value) {
          taken := true;
        } else {
          contents := Some(data + RecordLine(key, password, strength));
          taken := false;
        }
      } else {
        contents := Some(RecordLine(key, password, strength));
        taken := false;
      }
    }

    /** The file-changing part of `deleteKey`. */
    method DeleteKey(key: string) returns (outcome: DeleteOutcome)
      modifies this
      ensures old(contents).None? ==> outcome == NoPasswordsYet && contents == old(contents)
      ensures old(contents).Some? && !KeyFound(old(contents).value, key) ==>
        outcome == KeyMissing && contents == old(contents)
      ensures old(contents).Some? && KeyFound(old(contents).value, key) ==>
        outcome == Deleted && contents == Some(RemoveRecords(old(contents).value, key))
      ensures old(Valid()) ==> Valid()
    {
      if contents.Some? {
        var data := contents.value;
        var lines := SplitOn(data, " ");
        var line := FindContaining(lines, key);
        if line.Some? && IsTruthy(line.value) {
          var newData := RemoveRecords(data, key);
          if WholeLines(data) {
            RemoveKeepsWholeLines(data, key);
          }
          contents := Some(newData);
          outcome := Deleted;
        } else {
          outcome := KeyMissing;
        }
      } else {
        outcome := NoPasswordsYet;
      }
    }

    /** The list branch: nothing to list when the file is absent (reading it throws),
        otherwise the parsed lines of the file. */
    function List(): (r: Option<seq<Entry>>)
      reads this
      ensures r.None? <==> contents.None?
      ensures r.Some? ==> r.value == ParseList(contents.value)
    {
      match contents
      case None => None
      case Some(data) => Some(ParseList(data))
    }
  }
}
