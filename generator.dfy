/** Password assembly (index.js:12-15, 71-188): the preset strengths and the custom
    composition.

    Every character the tool draws with `Math.random` is modelled as a nondeterministic
    choice of an index into its alphabet (`Draw`). A generated password is then specified
    by a LAYOUT: one alphabet per position of the result. A string `Fits` a layout when it
    has the layout's length and each of its characters belongs to the alphabet of its
    position; the key's own characters are one-letter alphabets. Every password the tool
    can produce fits the layout of its request. */
module Generator {
  import opened Wrappers
  import opened Text

  const SmallAlphabets := "abcdefghijklmnopqrstuvwxyz"
  const CapitalAlphabets := "ABCDEFGHIJKLMNOPQRSTUVWXYZ"
  const Numbers := "0123456789"
  const SpecialCharacters := "!@#$%^&*()_+~`|}{[]:;?><,./-="

  /** The same alphabet at `n` consecutive positions. */
  function Slots(alphabet: string, n: nat): seq<string> {
    seq(n, _ => alphabet)
  }

  /** Positions that can only hold the characters of `s`, in order. */
  function Literal(s: string): seq<string> {
    seq(|s|, i requires 0 <= i < |s| => [s[i]])
  }

  /** `s` is one of the strings the layout describes. */
  predicate Fits(s: string, layout: seq<string>) {
    |s| == |layout| && forall i :: 0 <= i < |s| ==> s[i] in layout[i]
  }

  /** Every character of `s` belongs to `alphabet`. */
  predicate AllIn(s: string, alphabet: string) {
    forall i :: 0 <= i < |s| ==> s[i] in alphabet
  }

  lemma FitsSlots(s: string, alphabet: string, n: nat)
    ensures Fits(s, Slots(alphabet, n)) <==> |s| == n && AllIn(s, alphabet)
  {
  }

  lemma FitsLiteral(s: string, t: string)
    ensures Fits(s, Literal(t)) <==> s == t
  {
    if Fits(s, Literal(t)) {
      assert forall i :: 0 <= i < |s| ==> s[i] == t[i];
    }
  }

  lemma FitsConcat(a: string, b: string, la: seq<string>, lb: seq<string>)
    ensures Fits(a, la) && Fits(b, lb) ==> Fits(a + b, la + lb)
  {
    if Fits(a, la) && Fits(b, lb) {
      forall i | 0 <= i < |a + b| ensures (a + b)[i] in (la + lb)[i] {
        if i < |a| {
          assert (a + b)[i] == a[i];
        } else {
          assert (a + b)[i] == b[i - |a|];
        }
      }
    }
  }

  lemma FitsPrefix(s: string, layout: seq<string>, n: nat)
    requires Fits(s, layout)
    ensures Fits(Prefix(s, n), Prefix(layout, n))
  {
  }

  /** One character drawn from a non-empty alphabet:
      `alphabet[Math.floor(Math.random() * alphabet.length)]`. */
  method Draw(alphabet: string) returns (c: char)
    requires alphabet != []
    ensures c in alphabet
  {
    var i :| 0 <= i < |alphabet|;
    c := alphabet[i];
  }

  /** `strength === 'strong' ? 2 : 1`. */
  function LoopLength(strength: string): (n: nat)
    ensures 1 <= n <= 2
    ensures n == 2 <==> strength == "strong"
  {
    if strength == "strong" then 2 else 1
  }

  /** The guard `strength === 'strong' || 'medium'` of the uppercase and symbol draws: the
      second operand is the non-empty string 'medium', tested for truthiness. The guard
      never fails, so weak passwords get uppercase and symbol slots too. */
  predicate UpperAndSymbolSlots(strength: string): (drawn: bool)
    ensures drawn
  {
    strength == "strong" || IsTruthy("medium")
  }

  /** The untruncated preset password: `loopLength` lowercase letters, then uppercase
      letters, digits and symbols, then the key. */
  function PresetLayout(strength: string, key: string): seq<string> {
    var n := LoopLength(strength);
    var guarded := UpperAndSymbolSlots(strength);
    Slots(SmallAlphabets, n)
      + (if guarded then Slots(CapitalAlphabets, n) else [])
      + Slots(Numbers, n)
      + (if guarded then Slots(SpecialCharacters, n) else [])
      + Literal(key)
  }

  /** The target lengths of `generatePassword`; no length for an unknown strength. */
  function PresetLength(strength: string): (n: Option<nat>)
    ensures n.Some? <==> strength == "strong" || strength == "medium" || strength == "weak"
    ensures n.Some? ==> n.value <= 4 * LoopLength(strength) + 4
    ensures n.Some? ==> (n.value == 4 * LoopLength(strength) + 4 <==> strength != "weak")
  {
    if strength == "strong" then Some(12)
    else if strength == "medium" then Some(8)
    else if strength == "weak" then Some(6)
    else None
  }

  /** The draws of `passGenLogic` joined with the key fit the uncut preset layout. */
  lemma AssemblePreset(strength: string, key: string, small: string, capital: string, digits: string, symbols: string)
    requires var n, guarded := LoopLength(strength), UpperAndSymbolSlots(strength);
      && |small| == n && AllIn(small, SmallAlphabets)
      && |capital| == (if guarded then n else 0) && AllIn(capital, CapitalAlphabets)
      && |digits| == n && AllIn(digits, Numbers)
      && |symbols| == (if guarded then n else 0) && AllIn(symbols, SpecialCharacters)
    ensures Fits(small + capital + digits + symbols + key, PresetLayout(strength, key))
  {
    var n, guarded := LoopLength(strength), UpperAndSymbolSlots(strength);
    var l1, l3 := Slots(SmallAlphabets, n), Slots(Numbers, n);
    var l2 := if guarded then Slots(CapitalAlphabets, n) else [];
    var l4 := if guarded then Slots(SpecialCharacters, n) else [];
    FitsSlots(small, SmallAlphabets, n);
    FitsSlots(capital, CapitalAlphabets, n);
    FitsSlots(digits, Numbers, n);
    FitsSlots(symbols, SpecialCharacters, n);
    FitsLiteral(key, key);
    FitsConcat(small, capital, l1, l2);
    FitsConcat(small + capital, digits, l1 + l2, l3);
    FitsConcat(small + capital + digits, symbols, l1 + l2 + l3, l4);
    FitsConcat(small + capital + digits + symbols, key, l1 + l2 + l3 + l4, Literal(key));
  }

  /** `passGenLogic`: draws the classes, joins them with the key and cuts the result
      to `passLength` characters. */
  method PassGenLogic(strength: string, key: string, passLength: nat) returns (r: string)
    ensures Fits(r, Prefix(PresetLayout(strength, key), passLength))
  {
    var loopLength := LoopLength(strength);
    var guarded := UpperAndSymbolSlots(strength);
    var smallAlphabetsRandom: string := [];
    var capitalAlphabetsRandom: string := [];
    var numbersRandom: string := [];
    var specialCharactersRandom: string := [];
    var i := 0;
    while i < loopLength
      invariant 0 <= i <= loopLength
      invariant |smallAlphabetsRandom| == i && AllIn(smallAlphabetsRandom, SmallAlphabets)
      invariant |capitalAlphabetsRandom| == (if guarded then i else 0)
      invariant AllIn(capitalAlphabetsRandom, CapitalAlphabets)
      invariant |numbersRandom| == i && AllIn(numbersRandom, Numbers)
      invariant |specialCharactersRandom| == (if guarded then i else 0)
      invariant AllIn(specialCharactersRandom, SpecialCharacters)
    {
      var randomSmallAlphabet := Draw(SmallAlphabets);
      // A skipped draw pushes '', which adds nothing to the joined password.
      var randomCapitalAlphabet: string := "";
      if guarded {
        var c := Draw(CapitalAlphabets);
        randomCapitalAlphabet := [c];
      }
      var randomNumber := Draw(Numbers);
      var randomSpecialCharacter: string := "";
      if guarded {
        var c := Draw(SpecialCharacters);
        randomSpecialCharacter := [c];
      }
      smallAlphabetsRandom := smallAlphabetsRandom + [randomSmallAlphabet];
      capitalAlphabetsRandom := capitalAlphabetsRandom + randomCapitalAlphabet;
      numbersRandom := numbersRandom + [randomNumber];
      specialCharactersRandom := specialCharactersRandom + randomSpecialCharacter;
      i := i + 1;
    }
    var pass := smallAlphabetsRandom + capitalAlphabetsRandom + numbersRandom + specialCharactersRandom + key;
    AssemblePreset(strength, key, smallAlphabetsRandom, capitalAlphabetsRandom, numbersRandom, specialCharactersRandom);
    r := Prefix(pass, passLength);
    FitsPrefix(pass, PresetLayout(strength, key), passLength);
  }

  /** `generatePassword`: the three presets with their target lengths, and the sentinel
      string for any other strength. */
  method GeneratePassword(strength: string, key: string) returns (r: string)
    ensures PresetLength(strength).None? ==> r == "Invalid Strength"
    ensures PresetLength(strength).Some? ==>
      Fits(r, Prefix(PresetLayout(strength, key), PresetLength(strength).value))
  {
    var strongPassLen := 12;
    var mediumPassLen := 8;
    var weakPassLen := 6;
    if strength == "strong" {
      r := PassGenLogic(strength, key, strongPassLen);
    } else if strength == "medium" {
      r := PassGenLogic(strength, key, mediumPassLen);
    } else if strength == "weak" {
      r := PassGenLogic(strength, key, weakPassLen);
    } else {
      r := "Invalid Strength";
    }
  }

  /** The custom password: `cap` uppercase letters, `small` lowercase letters, `num` digits
      and `sym` symbols, then the key, with no cut. */
  function CustomLayout(key: string, cap: nat, small: nat, num: nat, sym: nat): seq<string> {
    Slots(CapitalAlphabets, cap) + Slots(SmallAlphabets, small) + Slots(Numbers, num)
      + Slots(SpecialCharacters, sym) + Literal(key)
  }

  /** `generateRandomPassword`. The counts arrive from the prompts; a count of 0 draws nothing. */
  method GenerateRandomPassword(key: string, capitalAlphabetsLength: nat, smallAlphabetsLength: nat,
                                numbersLength: nat, symbolsLength: nat) returns (r: string)
    ensures Fits(r, CustomLayout(key, capitalAlphabetsLength, smallAlphabetsLength, numbersLength, symbolsLength))
  {
    var capitalAlphabetsRandom := DrawMany(CapitalAlphabets, capitalAlphabetsLength);
    var smallAlphabetsRandom := DrawMany(SmallAlphabets, smallAlphabetsLength);
    var numbersRandom := DrawMany(Numbers, numbersLength);
    var specialCharactersRandom := DrawMany(SpecialCharacters, symbolsLength);
    var pass := capitalAlphabetsRandom + smallAlphabetsRandom + numbersRandom + specialCharactersRandom + key;
    FitsLiteral(key, key);
    FitsConcat(capitalAlphabetsRandom, smallAlphabetsRandom,
      Slots(CapitalAlphabets, capitalAlphabetsLength), Slots(SmallAlphabets, smallAlphabetsLength));
    FitsConcat(capitalAlphabetsRandom + smallAlphabetsRandom, numbersRandom,
      Slots(CapitalAlphabets, capitalAlphabetsLength) + Slots(SmallAlphabets, smallAlphabetsLength),
      Slots(Numbers, numbersLength));
    FitsConcat(capitalAlphabetsRandom + smallAlphabetsRandom + numbersRandom, specialCharactersRandom,
      Slots(CapitalAlphabets, capitalAlphabetsLength) + Slots(SmallAlphabets, smallAlphabetsLength)
        + Slots(Numbers, numbersLength),
      Slots(SpecialCharacters, symbolsLength));
    FitsConcat(capitalAlphabetsRandom + smallAlphabetsRandom + numbersRandom + specialCharactersRandom, key,
      Slots(CapitalAlphabets, capitalAlphabetsLength) + Slots(SmallAlphabets, smallAlphabetsLength)
        + Slots(Numbers, numbersLength) + Slots(SpecialCharacters, symbolsLength),
      Literal(key));
    r := pass;
  }

  /** One counting loop of `generateRandomPassword`: `count` independent draws, pushed in order. */
  method DrawMany(alphabet: string, count: nat) returns (drawn: string)
    requires alphabet != []
    ensures |drawn| == count && AllIn(drawn, alphabet)
  {
    drawn := [];
    var i := 0;
    while i < count
      invariant 0 <= i <= count
      invariant |drawn| == i && AllIn(drawn, alphabet)
    {
      var c := Draw(alphabet);
      drawn := drawn + [c];
      i := i + 1;
    }
  }

  /** Which alphabet each position of an uncut preset password is drawn from. */
  lemma PresetLayoutAt(strength: string, key: string, i: nat)
    requires i < |PresetLayout(strength, key)|
    ensures var n := LoopLength(strength);
      && |PresetLayout(strength, key)| == 4 * n + |key|
      && PresetLayout(strength, key)[i] ==
        if i < n then SmallAlphabets
        else if i < 2 * n then CapitalAlphabets
        else if i < 3 * n then Numbers
        else if i < 4 * n then SpecialCharacters
        else [key[i - 4 * n]]
  {
    var n := LoopLength(strength);
    var l4 := Slots(SmallAlphabets, n) + Slots(CapitalAlphabets, n) + Slots(Numbers, n) + Slots(SpecialCharacters, n);
    assert PresetLayout(strength, key) == l4 + Literal(key);
    if i >= 4 * n {
      assert (l4 + Literal(key))[i] == Literal(key)[i - 4 * n];
    } else {
      assert (l4 + Literal(key))[i] == l4[i];
    }
  }

  /** A run of positions that all hold one alphabet yields a slice drawn from it. */
  lemma FitsBlock(r: string, layout: seq<string>, lo: nat, hi: nat, alphabet: string)
    requires Fits(r, layout)
    requires lo <= hi <= |r|
    requires forall i :: lo <= i < hi ==> layout[i] == alphabet
    ensures AllIn(r[lo..hi], alphabet)
  {
    forall k | 0 <= k < hi - lo ensures r[lo..hi][k] in alphabet {
      assert r[lo..hi][k] == r[lo + k];
    }
  }

  /** Positions that each allow one given character yield exactly those characters. */
  lemma FitsTail(r: string, layout: seq<string>, lo: nat, t: string)
    requires Fits(r, layout)
    requires lo + |t| == |r|
    requires forall i :: lo <= i < |r| ==> layout[i] == [t[i - lo]]
    ensures r[lo..] == t
  {
    forall k | 0 <= k < |t| ensures r[lo..][k] == t[k] {
      assert r[lo..][k] == r[lo + k];
      assert r[lo + k] in layout[lo + k];
    }
  }

  /** A string fitting a layout made of four alphabet blocks, cut at `p1 <= p2 <= p3 <= p4`,
      followed by the characters of `tail`, is made of slices drawn from those alphabets
      followed by `tail` itself. */
  lemma ShapeFromBlocks(r: string, layout: seq<string>, p1: nat, p2: nat, p3: nat, p4: nat,
                        a1: string, a2: string, a3: string, a4: string, tail: string)
    requires Fits(r, layout)
    requires p1 <= p2 <= p3 <= p4 && |layout| == p4 + |tail|
    requires forall i :: 0 <= i < p1 ==> layout[i] == a1
    requires forall i :: p1 <= i < p2 ==> layout[i] == a2
    requires forall i :: p2 <= i < p3 ==> layout[i] == a3
    requires forall i :: p3 <= i < p4 ==> layout[i] == a4
    requires forall i :: p4 <= i < |layout| ==> layout[i] == [tail[i - p4]]
    ensures |r| == p4 + |tail|
    ensures AllIn(r[..p1], a1) && AllIn(r[p1..p2], a2) && AllIn(r[p2..p3], a3) && AllIn(r[p3..p4], a4)
    ensures r[p4..] == tail
  {
    FitsBlock(r, layout, 0, p1, a1);
    FitsBlock(r, layout, p1, p2, a2);
    FitsBlock(r, layout, p2, p3, a3);
    FitsBlock(r, layout, p3, p4, a4);
    assert r[..p1] == r[0..p1];
    FitsTail(r, layout, p4, tail);
  }

  /** The blocks of a preset layout cut to its target length, for a key of length 4. */
  lemma PresetBlocks(strength: string, key: string)
    requires PresetLength(strength).Some?
    requires |key| == 4
    ensures var n, t := LoopLength(strength), PresetLength(strength).value;
      var layout := Prefix(PresetLayout(strength, key), t);
      && |layout| == 4 * n + |key[..t - 4 * n]|
      && (forall i :: 0 <= i < n ==> layout[i] == SmallAlphabets)
      && (forall i :: n <= i < 2 * n ==> layout[i] == CapitalAlphabets)
      && (forall i :: 2 * n <= i < 3 * n ==> layout[i] == Numbers)
      && (forall i :: 3 * n <= i < 4 * n ==> layout[i] == SpecialCharacters)
      && (forall i :: 4 * n <= i < |layout| ==> layout[i] == [key[..t - 4 * n][i - 4 * n]])
  {
    var n, t := LoopLength(strength), PresetLength(strength).value;
    var layout := Prefix(PresetLayout(strength, key), t);
    assert |layout| == t by {
      PresetLayoutAt(strength, key, 0);
    }
    forall i | 0 <= i < n ensures layout[i] == SmallAlphabets {
      PresetLayoutAt(strength, key, i);
    }
    forall i | n <= i < 2 * n ensures layout[i] == CapitalAlphabets {
      PresetLayoutAt(strength, key, i);
    }
    forall i | 2 * n <= i < 3 * n ensures layout[i] == Numbers {
      PresetLayoutAt(strength, key, i);
    }
    forall i | 3 * n <= i < 4 * n ensures layout[i] == SpecialCharacters {
      PresetLayoutAt(strength, key, i);
    }
    forall i | 4 * n <= i < |layout| ensures layout[i] == [key[..t - 4 * n][i - 4 * n]] {
      PresetLayoutAt(strength, key, i);
    }
  }

  /** The shape of every preset password for a key of the validated length 4: exactly 12, 8
      or 6 characters; `loopLength` lowercase letters, uppercase letters, digits and symbols
      in that order (the uppercase and symbol slots are present even for weak); then as
      much of the key as the cut leaves (all of it for strong and medium, two characters
      for weak). */
  lemma PresetShape(strength: string, key: string, r: string)
    requires PresetLength(strength).Some?
    requires |key| == 4
    requires Fits(r, Prefix(PresetLayout(strength, key), PresetLength(strength).value))
    ensures var n, t := LoopLength(strength), PresetLength(strength).value;
      && |r| == t
      && AllIn(r[..n], SmallAlphabets)
      && AllIn(r[n..2 * n], CapitalAlphabets)
      && AllIn(r[2 * n..3 * n], Numbers)
      && AllIn(r[3 * n..4 * n], SpecialCharacters)
      && r[4 * n..] == key[..t - 4 * n]
  {
    var n, t := LoopLength(strength), PresetLength(strength).value;
    PresetBlocks(strength, key);
    ShapeFromBlocks(r, Prefix(PresetLayout(strength, key), t), n, 2 * n, 3 * n, 4 * n,
      SmallAlphabets, CapitalAlphabets, Numbers, SpecialCharacters, key[..t - 4 * n]);
  }

  /** Which alphabet each position of a custom password is drawn from. */
  lemma CustomLayoutAt(key: string, cap: nat, small: nat, num: nat, sym: nat, i: nat)
    requires i < |CustomLayout(key, cap, small, num, sym)|
    ensures |CustomLayout(key, cap, small, num, sym)| == cap + small + num + sym + |key|
    ensures CustomLayout(key, cap, small, num, sym)[i] ==
      if i < cap then CapitalAlphabets
      else if i < cap + small then SmallAlphabets
      else if i < cap + small + num then Numbers
      else if i < cap + small + num + sym then SpecialCharacters
      else [key[i - (cap + small + num + sym)]]
  {
    var l4 := Slots(CapitalAlphabets, cap) + Slots(SmallAlphabets, small) + Slots(Numbers, num)
      + Slots(SpecialCharacters, sym);
    var m := cap + small + num + sym;
    assert CustomLayout(key, cap, small, num, sym) == l4 + Literal(key);
    if i >= m {
      assert (l4 + Literal(key))[i] == Literal(key)[i - m];
    } else {
      assert (l4 + Literal(key))[i] == l4[i];
    }
  }

  /** The blocks of a custom layout. */
  lemma CustomBlocks(key: string, cap: nat, small: nat, num: nat, sym: nat)
    ensures var layout, m := CustomLayout(key, cap, small, num, sym), cap + small + num + sym;
      && |layout| == m + |key|
      && (forall i :: 0 <= i < cap ==> layout[i] == CapitalAlphabets)
      && (forall i :: cap <= i < cap + small ==> layout[i] == SmallAlphabets)
      && (forall i :: cap + small <= i < cap + small + num ==> layout[i] == Numbers)
      && (forall i :: cap + small + num <= i < m ==> layout[i] == SpecialCharacters)
      && (forall i :: m <= i < |layout| ==> layout[i] == [key[i - m]])
  {
    var layout, m := CustomLayout(key, cap, small, num, sym), cap + small + num + sym;
    assert |layout| == m + |key| by {
      if |layout| > 0 {
        CustomLayoutAt(key, cap, small, num, sym, 0);
      }
    }
    forall i | 0 <= i < |layout| ensures layout[i] == if i < cap then CapitalAlphabets
      else if i < cap + small then SmallAlphabets
      else if i < cap + small + num then Numbers
      else if i < m then SpecialCharacters
      else [key[i - m]]
    {
      CustomLayoutAt(key, cap, small, num, sym, i);
    }
  }

  /** The shape of every custom password: `cap` uppercase letters, `small` lowercase letters,
      `num` digits, `sym` symbols, then the key unmodified; nothing is cut. */
  lemma CustomShape(key: string, cap: nat, small: nat, num: nat, sym: nat, r: string)
    requires Fits(r, CustomLayout(key, cap, small, num, sym))
    ensures |r| == cap + small + num + sym + |key|
    ensures AllIn(r[..cap], CapitalAlphabets)
    ensures AllIn(r[cap..cap + small], SmallAlphabets)
    ensures AllIn(r[cap + small..cap + small + num], Numbers)
    ensures AllIn(r[cap + small + num..cap + small + num + sym], SpecialCharacters)
    ensures r[cap + small + num + sym..] == key
  {
    CustomBlocks(key, cap, small, num, sym);
    ShapeFromBlocks(r, CustomLayout(key, cap, small, num, sym),
      cap, cap + small, cap + small + num, cap + small + num + sym,
      CapitalAlphabets, SmallAlphabets, Numbers, SpecialCharacters, key);
  }

  /** A layout whose every alphabet is a word only describes words. */
  lemma FitsWord(r: string, layout: seq<string>)
    requires Fits(r, layout)
    requires forall i :: 0 <= i < |layout| ==> Word(layout[i])
    ensures Word(r)
  {
    forall i | 0 <= i < |r| ensures r[i] != ' ' && !IsLineTerminator(r[i]) {
      assert r[i] in layout[i];
    }
  }

  /** Every character of `s` is a printable ASCII character other than the space. */
  predicate Visible(s: string) {
    forall i :: 0 <= i < |s| ==> '!' <= s[i] <= '~'
  }

  lemma VisibleIsWord(s: string)
    requires Visible(s)
    ensures Word(s)
  {
  }

  lemma SmallAlphabetsVisible()
    ensures Visible(SmallAlphabets)
  {
  }

  lemma CapitalAlphabetsVisible()
    ensures Visible(CapitalAlphabets)
  {
  }

  lemma NumbersVisible()
    ensures Visible(Numbers)
  {
  }

  lemma SpecialCharactersVisible()
    ensures Visible(SpecialCharacters)
  {
  }

  /** None of the four alphabets holds a space or a line break. */
  lemma AlphabetsAreWords()
    ensures Word(SmallAlphabets) && Word(CapitalAlphabets) && Word(Numbers) && Word(SpecialCharacters)
  {
    SmallAlphabetsVisible();
    CapitalAlphabetsVisible();
    NumbersVisible();
    SpecialCharactersVisible();
    VisibleIsWord(SmallAlphabets);
    VisibleIsWord(CapitalAlphabets);
    VisibleIsWord(Numbers);
    VisibleIsWord(SpecialCharacters);
  }

  /** No preset password holds a space or a line break unless its key does. */
  lemma PresetPasswordIsWord(strength: string, key: string, passLength: nat, r: string)
    requires Word(key)
    requires Fits(r, Prefix(PresetLayout(strength, key), passLength))
    ensures Word(r)
  {
    var layout := PresetLayout(strength, key);
    AlphabetsAreWords();
    forall i | 0 <= i < |layout| ensures Word(layout[i]) {
      PresetLayoutAt(strength, key, i);
      if i >= 4 * LoopLength(strength) {
        assert key[i - 4 * LoopLength(strength)] in key;
      }
    }
    FitsWord(r, Prefix(layout, passLength));
  }

  /** No custom password holds a space or a line break unless its key does. */
  lemma CustomPasswordIsWord(key: string, cap: nat, small: nat, num: nat, sym: nat, r: string)
    requires Word(key)
    requires Fits(r, CustomLayout(key, cap, small, num, sym))
    ensures Word(r)
  {
    var layout := CustomLayout(key, cap, small, num, sym);
    AlphabetsAreWords();
    forall i | 0 <= i < |layout| ensures Word(layout[i]) {
      CustomLayoutAt(key, cap, small, num, sym, i);
      if i >= cap + small + num + sym {
        assert key[i - (cap + small + num + sym)] in key;
      }
    }
    FitsWord(r, layout);
  }
}
