/** The JavaScript string operations the password tool relies on: `slice`, `includes`,
    `split` and `join`, together with the facts about them that the rest of the model uses. */
module Text {

  /** JavaScript truthiness of a string: only the empty string is falsy. */
  predicate IsTruthy(s: string): (truthy: bool)
    ensures truthy <==> |s| > 0
  {
    s != ""
  }

  /** The characters JavaScript's regular-expression `.` does not match. */
  predicate IsLineTerminator(c: char) {
    c == '\n' || c == '\r' || c == '\U{2028}' || c == '\U{2029}'
  }

  /** `s` holds no line terminator. */
  predicate SingleLine(s: string) {
    '\n' !in s && '\r' !in s && '\U{2028}' !in s && '\U{2029}' !in s
  }

  /** `s` holds neither a space nor a line terminator: it survives a split on either intact. */
  predicate Word(s: string) {
    ' ' !in s && SingleLine(s)
  }

  /** A file of whole lines: empty, or ending with a newline. */
  predicate WholeLines(s: string) {
    s == [] || s[|s| - 1] == '\n'
  }

  lemma SingleLineConcat(a: string, b: string)
    requires SingleLine(a) && SingleLine(b)
    ensures SingleLine(a + b)
  {
    forall c | c in a + b ensures !IsLineTerminator(c) {
      assert c in a || c in b;
    }
  }

  lemma ConcatAssoc<T>(x: seq<T>, y: seq<T>, z: seq<T>)
    ensures x + y + z == x + (y + z)
  {
  }

  lemma PrefixOfConcat<T>(x: seq<T>, y: seq<T>)
    ensures x <= x + y && (x + y)[|x|..] == y
  {
  }

  /** `s.slice(0, n)` for a non-negative `n`: the first `n` elements, or all of `s` when it is shorter. */
  function Prefix<T>(s: seq<T>, n: nat): (r: seq<T>)
    ensures |r| == if n <= |s| then n else |s|
    ensures r <= s
  {
    if n <= |s| then s[..n] else s
  }

  /** `s.includes(sub)`: `sub` occurs in `s` at some position. */
  predicate Contains(s: string, sub: string): (found: bool)
    ensures found ==> |sub| <= |s|
    decreases |s|
  {
    sub <= s || (s != [] && Contains(s[1..], sub))
  }

  /** An occurrence at position `p` is an occurrence. */
  lemma {:induction false} ContainsAt(s: string, sub: string, p: nat)
    requires p <= |s|
    requires sub <= s[p..]
    ensures Contains(s, sub)
    decreases p
  {
    if p > 0 {
      assert s[1..][p - 1..] == s[p..];
      ContainsAt(s[1..], sub, p - 1);
    } else {
      assert s[0..] == s;
    }
  }

  /** Every occurrence has a position: `Contains` is "occurs at some index". */
  lemma {:induction false} ContainsWitness(s: string, sub: string) returns (p: nat)
    requires Contains(s, sub)
    ensures p + |sub| <= |s| && sub <= s[p..]
    decreases |s|
  {
    if sub <= s {
      p := 0;
      assert s[0..] == s;
    } else {
      var q := ContainsWitness(s[1..], sub);
      p := q + 1;
      assert s[1..][q..] == s[p..];
    }
  }

  /** An occurrence in `a` is still an occurrence once `b` is appended. */
  lemma {:induction false} ContainsLeft(a: string, b: string, sub: string)
    requires Contains(a, sub)
    ensures Contains(a + b, sub)
    decreases |a|
  {
    if sub <= a {
      assert sub <= a + b;
    } else {
      assert (a + b)[1..] == a[1..] + b;
      ContainsLeft(a[1..], b, sub);
    }
  }

  /** An occurrence in `b` is still an occurrence once `a` is put in front. */
  lemma {:induction false} ContainsRight(a: string, b: string, sub: string)
    requires Contains(b, sub)
    ensures Contains(a + b, sub)
    decreases |a|
  {
    if a == [] {
      assert a + b == b;
    } else {
      assert (a + b)[1..] == a[1..] + b;
      ContainsRight(a[1..], b, sub);
    }
  }

  /** Every character of an occurring string is a character of the string it occurs in. */
  lemma {:induction false} ContainsChar(s: string, sub: string, k: nat)
    requires Contains(s, sub)
    requires k < |sub|
    ensures sub[k] in s
    decreases |s|
  {
    if sub <= s {
      assert s[k] == sub[k];
    } else {
      ContainsChar(s[1..], sub, k);
      assert sub[k] in s[1..];
    }
  }

  /** Occurrence is transitive: what occurs in an occurring string occurs in the whole. */
  lemma {:induction false} ContainsTrans(s: string, mid: string, sub: string)
    requires Contains(s, mid)
    requires Contains(mid, sub)
    ensures Contains(s, sub)
    decreases |s|
  {
    if mid <= s {
      assert s == mid + s[|mid|..];
      ContainsLeft(mid, s[|mid|..], sub);
    } else {
      ContainsTrans(s[1..], mid, sub);
    }
  }

  /** A string in which no position starts with `sub` does not contain `sub`. */
  lemma {:induction false} NoOccurrence(s: string, sub: string)
    requires forall i :: 0 <= i <= |s| ==> !(sub <= s[i..])
    ensures !Contains(s, sub)
    decreases |s|
  {
    assert s[0..] == s;
    if s != [] {
      forall i | 0 <= i <= |s[1..]|
        ensures !(sub <= s[1..][i..])
      {
        assert s[1..][i..] == s[i + 1..];
      }
      NoOccurrence(s[1..], sub);
    }
  }

  /** `s.split(sep)` for a non-empty separator: the pieces between the leftmost
      non-overlapping occurrences of `sep`, scanning from the left. */
  function SplitOn(s: string, sep: string): (parts: seq<string>)
    requires sep != []
    ensures |parts| >= 1
    decreases |s|
  {
    if |s| < |sep| then [s]
    else if s[..|sep|] == sep then [[]] + SplitOn(s[|sep|..], sep)
    else
      var rest := SplitOn(s[1..], sep);
      [[s[0]] + rest[0]] + rest[1..]
  }

  /** `sub` occurs in `s` starting at index `i`. */
  predicate OccursAt(s: string, sub: string, i: nat) {
    i + |sub| <= |s| && s[i..i + |sub|] == sub
  }

  /** Splitting where the first occurrence of the separator sits at `p`: the text before it
      is the first piece, and the rest is the split of what follows the separator. */
  lemma {:induction false} SplitAtFirst(s: string, sep: string, p: nat)
    requires sep != []
    requires OccursAt(s, sep, p)
    requires forall i :: 0 <= i < p ==> !OccursAt(s, sep, i)
    ensures SplitOn(s, sep) == [s[..p]] + SplitOn(s[p + |sep|..], sep)
    decreases p, 1
  {
    if p == 0 {
      assert s[..|sep|] == s[0..|sep|];
    } else {
      FirstOccurrenceShift(s, sep, p);
      ShiftedSplit(s, sep, p - 1);
    }
  }

  /** Dropping the first character moves a first occurrence one place to the left. */
  lemma FirstOccurrenceShift(s: string, sep: string, p: nat)
    requires sep != [] && 0 < p
    requires OccursAt(s, sep, p)
    requires forall i :: 0 <= i < p ==> !OccursAt(s, sep, i)
    ensures |s| >= |sep| && s[..|sep|] != sep
    ensures OccursAt(s[1..], sep, p - 1)
    ensures forall i :: 0 <= i < p - 1 ==> !OccursAt(s[1..], sep, i)
  {
    assert !OccursAt(s, sep, 0);
    assert s[..|sep|] == s[0..|sep|];
    forall i | 0 <= i < p - 1 ensures !OccursAt(s[1..], sep, i) {
      assert !OccursAt(s, sep, i + 1);
      assert s[1..][i..i + |sep|] == s[i + 1..i + 1 + |sep|];
    }
    assert s[1..][p - 1..p - 1 + |sep|] == s[p..p + |sep|];
  }

  /** The step of `SplitAtFirst` past a first character that starts no separator. */
  lemma {:induction false} ShiftedSplit(s: string, sep: string, q: nat)
    requires sep != [] && |s| >= |sep| && s[..|sep|] != sep
    requires OccursAt(s[1..], sep, q)
    requires forall i :: 0 <= i < q ==> !OccursAt(s[1..], sep, i)
    ensures SplitOn(s, sep) == [s[..q + 1]] + SplitOn(s[q + 1 + |sep|..], sep)
    decreases q + 1, 0
  {
    var t := s[1..];
    SplitAtFirst(t, sep, q);
    var first, more := t[..q], SplitOn(t[q + |sep|..], sep);
    ExtendFirstPiece(s[0], SplitOn(t, sep), first, more);
    assert t[q + |sep|..] == s[q + 1 + |sep|..];
    assert [s[0]] + first == s[..q + 1];
  }

  lemma ExtendFirstPiece(c: char, rest: seq<string>, first: string, more: seq<string>)
    requires rest == [first] + more
    ensures [[c] + rest[0]] + rest[1..] == [[c] + first] + more
  {
  }

  /** `parts.join(sep)`. */
  function JoinWith(parts: seq<string>, sep: string): string
  {
    if parts == [] then ""
    else if |parts| == 1 then parts[0]
    else parts[0] + sep + JoinWith(parts[1..], sep)
  }

  /** Splitting and joining again with the same separator gives back the original string. */
  lemma {:induction false} SplitJoin(s: string, sep: string)
    requires sep != []
    ensures JoinWith(SplitOn(s, sep), sep) == s
    decreases |s|
  {
    if |s| < |sep| {
    } else if s[..|sep|] == sep {
      SplitJoin(s[|sep|..], sep);
      var rest := SplitOn(s[|sep|..], sep);
      assert SplitOn(s, sep) == [[]] + rest;
      assert ([[]] + rest)[1..] == rest;
      assert s == sep + s[|sep|..];
    } else {
      SplitJoin(s[1..], sep);
      var rest := SplitOn(s[1..], sep);
      assert SplitOn(s, sep) == [[s[0]] + rest[0]] + rest[1..];
      JoinExtendFirst(s[0], rest, sep);
      assert s == [s[0]] + s[1..];
    }
  }

  /** Putting a character in front of the first piece puts it in front of the joined string. */
  lemma JoinExtendFirst(c: char, parts: seq<string>, sep: string)
    requires |parts| >= 1
    ensures JoinWith([[c] + parts[0]] + parts[1..], sep) == [c] + JoinWith(parts, sep)
  {
    var ext := [[c] + parts[0]] + parts[1..];
    assert ext[1..] == parts[1..];
    if |parts| > 1 {
      ConcatAssoc([c], parts[0], sep + JoinWith(parts[1..], sep));
      ConcatAssoc([c] + parts[0], sep, JoinWith(parts[1..], sep));
      ConcatAssoc(parts[0], sep, JoinWith(parts[1..], sep));
    }
  }

  /** A string without the separator character splits into itself alone. */
  lemma {:induction false} SplitWithoutSeparator(s: string, c: char)
    requires c !in s
    ensures SplitOn(s, [c]) == [s]
    decreases |s|
  {
    if |s| >= 1 {
      assert s[..1] == [s[0]];
      assert s[1..] == s[1..];
      assert c !in s[1..] by {
        forall k | 0 <= k < |s[1..]| ensures s[1..][k] != c {
          assert s[1..][k] == s[k + 1];
        }
      }
      SplitWithoutSeparator(s[1..], c);
      assert [s[0]] + s[1..] == s;
    }
  }

  /** One step of a split on a single character: a separator closes the current piece,
      any other character extends it. */
  lemma SplitCons(x: char, r: string, c: char)
    ensures SplitOn([x] + r, [c]) ==
      if x == c then [[]] + SplitOn(r, [c])
      else [[x] + SplitOn(r, [c])[0]] + SplitOn(r, [c])[1..]
  {
    var s := [x] + r;
    assert s[..1] == [x];
    assert s[1..] == r;
  }

  /** The piece list obtained by gluing the last piece of `A` to the first piece of `B`. */
  function Glue(A: seq<string>, B: seq<string>): seq<string>
    requires |A| >= 1 && |B| >= 1
  {
    A[..|A| - 1] + [A[|A| - 1] + B[0]] + B[1..]
  }

  /** Gluing after an empty last piece just concatenates the piece lists. */
  lemma GlueAfterEmptyPiece(A: seq<string>, B: seq<string>)
    requires |A| >= 1 && |B| >= 1
    requires A[|A| - 1] == []
    ensures Glue(A, B) == A[..|A| - 1] + B
  {
    assert [] + B[0] == B[0];
    assert B == [B[0]] + B[1..];
  }

  /** Gluing a single piece in front of a piece list. */
  lemma GlueSingle(x: string, B: seq<string>)
    requires |B| >= 1
    ensures Glue([x], B) == [x + B[0]] + B[1..]
  {
  }

  lemma GlueAfterEmpty(A: seq<string>, B: seq<string>)
    requires |A| >= 1 && |B| >= 1
    ensures [[]] + Glue(A, B) == Glue([[]] + A, B)
  {
    var A2 := [[]] + A;
    assert A2[..|A2| - 1] == [[]] + A[..|A| - 1];
    assert A2[|A2| - 1] == A[|A| - 1];
  }

  lemma GlueAfterChar(x: char, A: seq<string>, B: seq<string>)
    requires |A| >= 1 && |B| >= 1
    ensures
      var R := Glue(A, B);
      [[x] + R[0]] + R[1..] == Glue([[x] + A[0]] + A[1..], B)
  {
    var R := Glue(A, B);
    var A2 := [[x] + A[0]] + A[1..];
    if |A| == 1 {
      assert R[0] == A[0] + B[0];
      assert R[1..] == B[1..];
      assert A2[..|A2| - 1] == [];
      assert [x] + (A[0] + B[0]) == ([x] + A[0]) + B[0];
    } else {
      assert R[0] == A[0];
      assert R[1..] == A[1..|A| - 1] + [A[|A| - 1] + B[0]] + B[1..];
      assert A2[..|A2| - 1] == [[x] + A[0]] + A[1..|A| - 1];
      assert A2[|A2| - 1] == A[|A| - 1];
    }
  }

  /** Splitting on a single character distributes over concatenation: the last piece of
      the left part is glued to the first piece of the right part. */
  lemma {:induction false} SplitConcat(a: string, b: string, c: char)
    ensures SplitOn(a + b, [c]) == Glue(SplitOn(a, [c]), SplitOn(b, [c]))
    decreases |a|
  {
    var B := SplitOn(b, [c]);
    if a == [] {
      assert a + b == b;
      assert [] + B[0] == B[0];
      assert B == [B[0]] + B[1..];
    } else {
      assert a == [a[0]] + a[1..];
      assert a + b == [a[0]] + (a[1..] + b);
      SplitConcat(a[1..], b, c);
      SplitCons(a[0], a[1..], c);
      SplitCons(a[0], a[1..] + b, c);
      if a[0] == c {
        GlueAfterEmpty(SplitOn(a[1..], [c]), B);
      } else {
        GlueAfterChar(a[0], SplitOn(a[1..], [c]), B);
      }
    }
  }

  /** A string that ends with the separator character has an empty last piece. */
  lemma SplitEndingWithSeparator(s: string, c: char)
    requires s != [] && s[|s| - 1] == c
    ensures var P := SplitOn(s, [c]); P[|P| - 1] == []
  {
    var init := s[..|s| - 1];
    assert s == init + [c];
    SplitConcat(init, [c], c);
    SplitCons(c, [], c);
    assert [c] + [] == [c];
  }

  /** No piece of a split on a single character contains that character. */
  lemma {:induction false} SplitPiecesAvoidSeparator(s: string, c: char)
    ensures forall p :: p in SplitOn(s, [c]) ==> c !in p
    decreases |s|
  {
    if |s| >= 1 {
      assert s[..1] == [s[0]];
      SplitPiecesAvoidSeparator(s[1..], c);
    }
  }

  /** The first piece of a split is a prefix of the string, and every piece occurs in it. */
  lemma {:induction false} SplitPiecesOccur(s: string, sep: string)
    requires sep != []
    ensures SplitOn(s, sep)[0] <= s
    ensures forall p :: p in SplitOn(s, sep) ==> Contains(s, p)
    decreases |s|
  {
    if |s| < |sep| {
      assert s <= s;
    } else if s[..|sep|] == sep {
      var rest := SplitOn(s[|sep|..], sep);
      SplitPiecesOccur(s[|sep|..], sep);
      assert [] <= s;
      assert s == s[..|sep|] + s[|sep|..];
      forall p | p in rest ensures Contains(s, p) {
        ContainsRight(s[..|sep|], s[|sep|..], p);
      }
    } else {
      var rest := SplitOn(s[1..], sep);
      SplitPiecesOccur(s[1..], sep);
      assert s == [s[0]] + s[1..];
      assert [s[0]] + rest[0] <= s;
      forall p | p in SplitOn(s, sep) ensures Contains(s, p) {
        if p != [s[0]] + rest[0] {
          assert p in rest[1..];
          assert Contains(s[1..], p);
        }
      }
    }
  }
}
