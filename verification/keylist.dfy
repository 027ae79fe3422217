/** Validation of one `key` element (`xmlParser.__generate_keylist`) together
    with the tables it consults: the per-character definition counter
    (`__reset_count`) and the built-in QWERTY shift table (`__default_shift`). */
module Keylist {
  import opened Wrappers
  import opened Assoc
  import opened Text
  import opened LayoutTree

  /** Key names that are not single characters. */
  const SpecialKeys: seq<string> := ["shift_l", "shift_r", "space", "backspace", "tab", "capslock", "enter"]

  /** The names a key's folded `lower` may take: one printable character or a
      special key name. */
  predicate Allowed(s: string) {
    (|s| == 1 && s[0] in Printable) || s in SpecialKeys
  }

  /** `__reset_count`: a zero counter for every allowed name. */
  function ResetCount(): (counts: map<string, nat>)
    ensures forall s :: s in counts <==> Allowed(s)
    ensures forall s :: s in counts ==> counts[s] == 0
  {
    var names := (set c | c in Printable :: [c]) + (set k | k in SpecialKeys);
    assert forall s :: Allowed(s) ==> s in names by {
      forall s | Allowed(s) ensures s in names {
        if |s| == 1 && s[0] in Printable {
          assert s == [s[0]];
        }
      }
    }
    map s | s in names :: 0
  }

  /** Special key names are written in lower case. */
  lemma SpecialKeyLower(s: string)
    requires s in SpecialKeys
    ensures Lower(s) == s
  {
  }

  /** The number row and punctuation part of the QWERTY shift table. */
  const ShiftedSymbols: map<string, string> := map[
    "`" := "~", "1" := "!", "2" := "@", "3" := "#", "4" := "$", "5" := "%",
    "6" := "^", "7" := "&", "8" := "*", "9" := "(", "0" := ")", "-" := "_",
    "=" := "+", "[" := "{", "]" := "}", "\\" := "|", ";" := ":", "'" := "\"",
    "," := "<", "." := ">", "/" := "?"]

  /** `__default_shift` as a lookup: lower-case letters shift to upper case,
      the number row and punctuation to their QWERTY symbols, and the special
      keys to themselves. */
  function DefaultShift(s: string): Option<string> {
    if |s| == 1 && 'a' <= s[0] <= 'z' then Some([(s[0] as int - 32) as char])
    else if s in ShiftedSymbols then Some(ShiftedSymbols[s])
    else if s in SpecialKeys then Some(s)
    else None
  }

  /** Each special key shifts to itself. */
  lemma DefaultShiftSpecial(s: string)
    requires s in SpecialKeys
    ensures DefaultShift(s) == Some(s)
  {
  }

  /** A lower-case letter shifts to the matching upper-case letter. */
  lemma DefaultShiftLetter(c: char)
    requires 'a' <= c <= 'z'
    ensures DefaultShift([c]) == Some([c - 'a' + 'A'])
  {
  }

  /** There is no default for an upper-case letter. */
  lemma DefaultShiftNoUpper(c: char)
    requires 'A' <= c <= 'Z'
    ensures DefaultShift([c]).None?
  {
  }

  /** Every name the table covers is already lower case and is one the
      definition counter admits. */
  lemma DefaultShiftDomain(s: string)
    requires DefaultShift(s).Some?
    ensures Allowed(s) && Lower(s) == s
  {
    if |s| == 1 && 'a' <= s[0] <= 'z' {
      assert s[0] in Printable by {
        assert s[0] in AsciiLowercase;
      }
      LowerSingle(s);
    } else if s in ShiftedSymbols {
      SymbolPrintable(s);
      LowerSingle(s);
    } else {
      assert s in SpecialKeys;
      SpecialKeyLower(s);
    }
  }

  /** A one-character string other than an upper-case letter or the Kelvin
      sign is its own lower case. */
  lemma LowerSingle(s: string)
    requires |s| == 1 && !('A' <= s[0] <= 'Z') && s[0] != KelvinSign
    ensures Lower(s) == s
  {
    assert Lower(s)[0] == s[0];
  }

  /** The unshifted symbols of the table are printable non-letters. */
  lemma SymbolPrintable(s: string)
    requires s in ShiftedSymbols
    ensures |s| == 1 && s[0] in Printable && !('A' <= s[0] <= 'Z')
  {
    assert |s| == 1 && (s[0] in Digits || s[0] in Punctuation);
  }

  /** Which duplicate test the parser applies. `AsWritten` is the source's
      `char_count[c] > 1`, which lets a second definition through;
      `Corrected` rejects any definition after the first. */
  datatype Policy = AsWritten | Corrected

  /** The highest counter value at which one more definition is still admitted. */
  function Threshold(p: Policy): nat {
    match p
    case AsWritten => 1
    case Corrected => 0
  }

  /** The parser's running state while it reads keys: the definition counter
      and the shift mapping built so far. */
  datatype Tally = Tally(counts: map<string, nat>, shift: Assoc<string, string>)

  /** The name under which an accepted key is stored: `lower` unchanged when an
      `upper` is given, `lower.lower()` when the default table is used. */
  function KeyName(key: KeyElem): string
    requires key.lower.Some?
  {
    if key.upper.Some? then key.lower.value else Lower(key.lower.value)
  }

  /** The shift checks of one key: an explicit `upper` is refused for any shift
      key, and a key without one needs a default-table entry and must not be an
      upper-case letter. */
  predicate ShiftOk(key: KeyElem)
    requires key.lower.Some?
  {
    var lower := key.lower.value;
    if key.upper.Some? then !Contains(Lower(lower), "shift")
    else !Contains(AsciiUppercase, lower) && DefaultShift(Lower(lower)).Some?
  }

  /** The shift-mapping half of `__generate_keylist`: the slot written and the
      target stored there, or the error raised instead. */
  function ShiftEntry(key: KeyElem): (r: Result<(string, string), ParseError>)
    requires key.lower.Some?
    ensures r.Success? <==> ShiftOk(key)
    ensures r.Success? ==> r.value.0 == KeyName(key)
    ensures r.Success? && key.upper.Some? ==> r.value.1 == key.upper.value
    ensures r.Success? && key.upper.None? ==> DefaultShift(Lower(key.lower.value)) == Some(r.value.1)
    ensures r.Failure? && key.upper.Some? ==> r.error == ShiftSelfMapping(key.lower.value)
    ensures r.Failure? && key.upper.None? ==> r.error == NoDefaultShift(key.lower.value)
  {
    var lower := key.lower.value;
    match key.upper
    case Some(upper) =>
      if Contains(Lower(lower), "shift") then Failure(ShiftSelfMapping(lower))
      else if lower in SpecialKeys then
        SpecialKeyLower(lower);
        Success((Lower(lower), upper))
      else Success((lower, upper))
    case None =>
      if Contains(AsciiUppercase, lower) then Failure(NoDefaultShift(lower))
      else
        match DefaultShift(Lower(lower))
        case None => Failure(NoDefaultShift(lower))
        case Some(target) => Success((Lower(lower), target))
  }

  /** The counter half of `__generate_keylist`: the folded `lower` must be a
      counted name whose counter has not passed the policy's threshold; the
      counter is then incremented. */
  function Count(p: Policy, counts: map<string, nat>, lower: string): (r: Result<map<string, nat>, ParseError>)
    ensures Lower(lower) !in counts ==> r == Failure(InvalidCharacter(lower))
    ensures Lower(lower) in counts && counts[Lower(lower)] > Threshold(p) ==> r == Failure(DuplicateKey(lower))
    ensures r.Success? <==> Lower(lower) in counts && counts[Lower(lower)] <= Threshold(p)
    ensures r.Success? ==> r.value == counts[Lower(lower) := counts[Lower(lower)] + 1]
  {
    var folded := Lower(lower);
    if folded !in counts then Failure(InvalidCharacter(lower))
    else if counts[folded] > Threshold(p) then Failure(DuplicateKey(lower))
    else Success(counts[folded := counts[folded] + 1])
  }

  /** The error raised for a failed count: the invalid-character message
      quotes the key's first position text (line 303), so without one the
      message itself cannot be built. */
  function Reported(key: KeyElem, e: ParseError): ParseError {
    if e.InvalidCharacter? && !HasPositionText(key) then UnreportableCharacter(e.lower) else e
  }

  /** `__generate_keylist`: validates one key against the counter, records its
      shift target and returns the name it is stored under. */
  function GenerateKeylist(p: Policy, t: Tally, key: KeyElem): (r: Result<(string, Tally), ParseError>)
    ensures r.Success? <==>
              key.lower.Some? && Lower(key.lower.value) in t.counts &&
              t.counts[Lower(key.lower.value)] <= Threshold(p) && ShiftOk(key)
    ensures r.Success? ==>
              var c := Lower(key.lower.value);
              && r.value.0 == KeyName(key)
              && Lower(r.value.0) == c
              && r.value.1.counts == t.counts[c := t.counts[c] + 1]
    ensures r.Success? && key.upper.Some? ==> Get(r.value.1.shift, r.value.0) == key.upper
    ensures r.Success? && key.upper.None? ==>
              Get(r.value.1.shift, r.value.0) == DefaultShift(Lower(key.lower.value))
    ensures r.Success? ==> forall k :: k != r.value.0 ==> Get(r.value.1.shift, k) == Get(t.shift, k)
    ensures r.Success? ==>
              Keys(r.value.1.shift) == if r.value.0 in Keys(t.shift) then Keys(t.shift) else Keys(t.shift) + [r.value.0]
    ensures r.Success? && DistinctKeys(t.shift) ==> DistinctKeys(r.value.1.shift)
  {
    if key.lower.None? then Failure(MissingLower)
    else
      match Count(p, t.counts, key.lower.value)
      case Failure(e) => Failure(Reported(key, e))
      case Success(counts) =>
        match ShiftEntry(key)
        case Failure(e) => Failure(e)
        case Success(entry) =>
          LowerIdempotent(key.lower.value);
          Success((entry.0, Tally(counts, Put(t.shift, entry.0, entry.1))))
  }

  /** The errors of `__generate_keylist`, in the order the source checks
      them: a missing `lower`, then a character without a counter (whose
      message needs the key's first position text), then a duplicate. */
  lemma KeylistErrors(p: Policy, t: Tally, key: KeyElem)
    ensures var r := GenerateKeylist(p, t, key);
      && (key.lower.None? ==> r == Failure(MissingLower))
      && (key.lower.Some? && Lower(key.lower.value) !in t.counts ==>
            r == Failure(if HasPositionText(key) then InvalidCharacter(key.lower.value)
                         else UnreportableCharacter(key.lower.value)))
      && (key.lower.Some? && Lower(key.lower.value) in t.counts && t.counts[Lower(key.lower.value)] > Threshold(p) ==>
            r == Failure(DuplicateKey(key.lower.value)))
  {
  }

  /** A key whose `lower` is the Kelvin sign is read as the letter `k`: it is
      counted under "k", is not an ASCII capital, takes the default shift "K"
      and is stored as "k". */
  lemma KelvinKey(p: Policy, t: Tally, key: KeyElem)
    requires key.lower == Some([KelvinSign]) && key.upper.None?
    requires "k" in t.counts && t.counts["k"] <= Threshold(p)
    ensures var r := GenerateKeylist(p, t, key);
      && r.Success?
      && r.value.0 == "k"
      && "k" in r.value.1.counts && r.value.1.counts["k"] == t.counts["k"] + 1
      && Get(r.value.1.shift, "k") == Some("K")
  {
    KelvinFolds();
    KelvinShifts(key);
  }

  lemma KelvinFolds()
    ensures Lower([KelvinSign]) == "k"
  {
    assert Lower([KelvinSign])[0] == 'k';
  }

  lemma KelvinShifts(key: KeyElem)
    requires key.lower == Some([KelvinSign]) && key.upper.None?
    ensures ShiftOk(key)
    ensures DefaultShift(Lower(key.lower.value)) == Some("K")
  {
    KelvinFolds();
    ContainsChar(AsciiUppercase, KelvinSign);
    DefaultShiftLetter('k');
  }
}
