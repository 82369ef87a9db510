/** How the interactive flows chain the core (index.js:231-389): a validated key and
    composition, a generated password, the record appended for it, and what listing then
    shows. The prompts themselves are not modelled; these lemmas state what holds of every
    password the generator can return. */
module Flow {
  import opened Wrappers
  import opened Text
  import opened Prompts
  import opened Generator
  import opened Store

  /** Counts accepted by the prompts put at least one character of every class into a
      custom password. */
  lemma ValidatedCustomHasEveryClass(key: string, cap: nat, small: nat, num: nat, sym: nat, r: string)
    requires ValidateCount(cap).Accepted? && ValidateCount(small).Accepted?
    requires ValidateCount(num).Accepted? && ValidateCount(sym).Accepted?
    requires Fits(r, CustomLayout(key, cap, small, num, sym))
    ensures r[0] in CapitalAlphabets
    ensures r[cap] in SmallAlphabets
    ensures r[cap + small] in Numbers
    ensures r[cap + small + num] in SpecialCharacters
  {
    CustomShape(key, cap, small, num, sym, r);
    assert r[..cap][0] == r[0];
    assert r[cap..cap + small][0] == r[cap];
    assert r[cap + small..cap + small + num][0] == r[cap + small];
    assert r[cap + small + num..cap + small + num + sym][0] == r[cap + small + num];
  }

  /** A key accepted by the prompt gives preset passwords of exactly 12, 8 and 6 characters. */
  lemma ValidatedKeyPresetLength(strength: string, key: string, r: string)
    requires ValidateKey(key).Accepted?
    requires PresetLength(strength).Some?
    requires Fits(r, Prefix(PresetLayout(strength, key), PresetLength(strength).value))
    ensures |r| == PresetLength(strength).value
  {
    PresetShape(strength, key, r);
  }

  /** Generate, append, list: a preset password stored for a key without spaces or line
      breaks comes back from the listing as the last entry, with its key and with the
      password followed by its strength suffix. */
  lemma PresetRoundTrip(data: string, strength: string, key: string, r: string)
    requires WholeLines(data)
    requires Word(key)
    requires PresetLength(strength).Some?
    requires Fits(r, Prefix(PresetLayout(strength, key), PresetLength(strength).value))
    ensures ParseList(data + RecordLine(key, r, strength))
      == ParseList(data) + [Entry(key, Some(r + " (" + strength + ") "))]
  {
    PresetPasswordIsWord(strength, key, PresetLength(strength).value, r);
    PresetStrengthIsWord(strength);
    AppendThenList(data, key, r, strength);
  }

  /** Generate, append, list for a custom password, stored with the strength `custom`. */
  lemma CustomRoundTrip(data: string, key: string, cap: nat, small: nat, num: nat, sym: nat, r: string)
    requires WholeLines(data)
    requires Word(key)
    requires Fits(r, CustomLayout(key, cap, small, num, sym))
    ensures ParseList(data + RecordLine(key, r, "custom"))
      == ParseList(data) + [Entry(key, Some(r + " (custom) "))]
  {
    CustomPasswordIsWord(key, cap, small, num, sym, r);
    CustomStrengthIsWord(r);
    AppendThenList(data, key, r, "custom");
  }

  /** The strength names written to the file hold no space or line break. */
  lemma PresetStrengthIsWord(strength: string)
    requires PresetLength(strength).Some?
    ensures Word(strength)
  {
  }

  lemma CustomStrengthIsWord(r: string)
    ensures Word("custom")
    ensures r + " (" + "custom" + ") " == r + " (custom) "
  {
  }
}
