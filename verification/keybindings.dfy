/**
 The keyboard-binding registry: canonical combo strings, the combo read off
 a key-down event, the binding table installed by `setBindings`, and the
 window-level key-down dispatcher that consults the table current at event
 time.

 Handlers are opaque values of a type parameter `H`; invoking one and
 calling `preventDefault` are emitted as effects, in the order they happen.
 */
module KeyBindings {
  import opened Strings
  import opened Tables

  /** The character that separates modifiers from each other and from the key. */
  const Sep: char := '+'

  /** The four modifier names a structured combo or an event can contribute. */
  const ModifierNames: set<string> := {"alt", "ctrl", "meta", "shift"}

  /* ------------------------------------------------------ normalisation */

  /**
   Sorted modifiers joined with `+`, then `+` and the key. When the joined
   modifiers are the empty string (no modifiers, or a single empty token)
   JavaScript treats it as false and the result is the key alone.
   */
  function Assemble(mods: seq<string>, key: string): string
  {
    var m := Join(Sort(mods), Sep);
    if m == "" then key else m + [Sep] + key
  }

  /** The `+`-separated pieces of a lowercased string combo. */
  function Parts(combo: string): (parts: seq<string>)
    ensures |parts| >= 1
    ensures forall i :: 0 <= i < |parts| ==> Sep !in parts[i] && IsLower(parts[i])
  {
    SplitLower(combo, Sep);
    forall i | 0 <= i < |Split(combo, Sep)|
      ensures IsLower(Lower(Split(combo, Sep)[i]))
    {
      LowerIsLower(Split(combo, Sep)[i]);
    }
    Split(Lower(combo), Sep)
  }

  /** Every piece but the last: the modifier tokens, in written order. */
  function ModTokens(combo: string): (mods: seq<string>)
    ensures forall i :: 0 <= i < |mods| ==> Sep !in mods[i] && IsLower(mods[i])
  {
    var p := Parts(combo);
    p[..|p| - 1]
  }

  /** The last piece, popped off as the key whatever it says. */
  function KeyToken(combo: string): (key: string)
    ensures Sep !in key && IsLower(key)
  {
    var p := Parts(combo);
    p[|p| - 1]
  }

  /**
   `normalizeCombo` on the string shorthand: lowercase, split on `+`, take the
   last piece as the key and sort the rest. The key's position is fixed:
   "s+ctrl" keeps `ctrl` as its key.
   */
  function NormalizeString(combo: string): (r: string)
    ensures IsLower(r)
    ensures |ModTokens(combo)| == 0 ==> r == KeyToken(combo)
  {
    var mods := ModTokens(combo);
    var key := KeyToken(combo);
    AssembleLower(mods, key);
    Assemble(mods, key)
  }

  /** Assembling lowercase tokens gives a lowercase combo. */
  lemma AssembleLower(mods: seq<string>, key: string)
    requires forall i :: 0 <= i < |mods| ==> IsLower(mods[i])
    requires IsLower(key)
    ensures IsLower(Assemble(mods, key))
  {
    var sorted := Sort(mods);
    if Join(sorted, Sep) != "" {
      SortSameElements(mods);
      assert forall i :: 0 <= i < |sorted| ==> sorted[i] in mods;
      TokensLowerJoin(sorted + [key]);
      JoinAppend(sorted, key, Sep);
    }
  }

  /** The join of lowercase tokens is lowercase. */
  lemma TokensLowerJoin(toks: seq<string>)
    requires forall i :: 0 <= i < |toks| ==> IsLower(toks[i])
    ensures IsLower(Join(toks, Sep))
    ensures Lower(Join(toks, Sep)) == Join(toks, Sep)
  {
    LowerJoin(toks, Sep);
    forall i | 0 <= i < |toks|
      ensures Lower(toks[i]) == toks[i]
    {
      LowerFixesLower(toks[i]);
    }
    assert LowerAll(toks) == toks;
    LowerIsLower(Join(toks, Sep));
  }

  /**
   Read back through `split`, a normalised string combo is the sorted
   modifier tokens of the input followed by its key; with an empty join of
   modifiers it is the key alone.
   */
  lemma NormalizeStringTokens(combo: string)
    ensures var out := Split(NormalizeString(combo), Sep);
      && out[|out| - 1] == KeyToken(combo)
      && Sorted(out[..|out| - 1])
      && (Join(ModTokens(combo), Sep) == "" ==> out == [KeyToken(combo)])
      && (Join(ModTokens(combo), Sep) != "" ==> multiset(out[..|out| - 1]) == multiset(ModTokens(combo)))
  {
    var mods := ModTokens(combo);
    var key := KeyToken(combo);
    var r := NormalizeString(combo);
    assert r == Assemble(mods, key);
    AssembleTokens(mods, key);
    var out := Split(r, Sep);
    assert out == Split(Assemble(mods, key), Sep);
    assert out[|out| - 1] == key;
  }

  /** `Assemble` on separator-free tokens, read back through `split`. */
  lemma AssembleTokens(mods: seq<string>, key: string)
    requires forall i :: 0 <= i < |mods| ==> Sep !in mods[i]
    requires Sep !in key
    ensures var out := Split(Assemble(mods, key), Sep);
      && out[|out| - 1] == key
      && Sorted(out[..|out| - 1])
      && (Join(mods, Sep) == "" ==> out == [key])
      && (Join(mods, Sep) != "" ==> multiset(out[..|out| - 1]) == multiset(mods))
  {
    var sorted := Sort(mods);
    var out := Split(Assemble(mods, key), Sep);
    AssembleSplit(mods, key);
    SortJoinEmpty(mods, Sep);
    if Join(sorted, Sep) != "" {
      assert out[..|out| - 1] == sorted;
    }
  }

  /** The pieces of an assembled combo: the key alone, or the sorted modifiers then the key. */
  lemma AssembleSplit(mods: seq<string>, key: string)
    requires forall i :: 0 <= i < |mods| ==> Sep !in mods[i]
    requires Sep !in key
    ensures Split(Assemble(mods, key), Sep) == if Join(Sort(mods), Sep) == "" then [key] else Sort(mods) + [key]
  {
    var sorted := Sort(mods);
    if Join(sorted, Sep) == "" {
      SplitJoin([key], Sep);
      assert Join([key], Sep) == key;
    } else {
      JoinEmpty(sorted, Sep);
      SortSepFree(mods, Sep);
      SplitJoinAppend(sorted, key, Sep);
    }
  }

  /** The pieces of a joined list of separator-free tokens are those tokens, lowercased. */
  lemma PartsOfJoin(toks: seq<string>)
    requires |toks| >= 1
    requires forall i :: 0 <= i < |toks| ==> Sep !in toks[i]
    ensures Parts(Join(toks, Sep)) == LowerAll(toks)
  {
    SplitLower(Join(toks, Sep), Sep);
    SplitJoin(toks, Sep);
  }

  /** A joined list of separator-free tokens splits back into its lowercased modifiers and key. */
  lemma ModTokensOfJoin(mods: seq<string>, key: string)
    requires forall i :: 0 <= i < |mods| ==> Sep !in mods[i]
    requires Sep !in key
    ensures ModTokens(Join(mods + [key], Sep)) == LowerAll(mods)
    ensures KeyToken(Join(mods + [key], Sep)) == Lower(key)
    ensures NormalizeString(Join(mods + [key], Sep)) == Assemble(LowerAll(mods), Lower(key))
  {
    var toks := mods + [key];
    var j := Join(toks, Sep);
    assert forall i :: 0 <= i < |toks| ==> Sep !in toks[i];
    PartsOfJoin(toks);
    LowerAllAppend(mods, key);
    var p := Parts(j);
    assert p == LowerAll(mods) + [Lower(key)];
    assert p[..|p| - 1] == LowerAll(mods);
  }

  /**
   Neither the order of the modifier tokens before the key nor the case of
   any letter changes the normalised string.
   */
  lemma NormalizePermutationInvariant(m1: seq<string>, k1: string, m2: seq<string>, k2: string)
    requires forall i :: 0 <= i < |m1| ==> Sep !in m1[i]
    requires forall i :: 0 <= i < |m2| ==> Sep !in m2[i]
    requires Sep !in k1 && Sep !in k2
    requires multiset(LowerAll(m1)) == multiset(LowerAll(m2))
    requires Lower(k1) == Lower(k2)
    ensures NormalizeString(Join(m1 + [k1], Sep)) == NormalizeString(Join(m2 + [k2], Sep))
  {
    ModTokensOfJoin(m1, k1);
    ModTokensOfJoin(m2, k2);
    SortPermutationInvariant(LowerAll(m1), LowerAll(m2));
  }

  /** Normalisation ignores letter case: lowercasing the combo first changes nothing. */
  lemma NormalizeCaseInsensitive(combo: string)
    ensures NormalizeString(Lower(combo)) == NormalizeString(combo)
  {
    LowerIsLower(combo);
    LowerFixesLower(Lower(combo));
    assert Parts(Lower(combo)) == Parts(combo);
  }

  /** Normalising an already-normalised string combo returns it unchanged. */
  lemma NormalizeIdempotent(combo: string)
    ensures NormalizeString(NormalizeString(combo)) == NormalizeString(combo)
  {
    var r := NormalizeString(combo);
    var mods := ModTokens(combo);
    var key := KeyToken(combo);
    var sorted := Sort(mods);
    assert r == Assemble(mods, key);
    LowerFixesLower(r);
    AssembleSplit(mods, key);
    var p := Parts(r);
    assert p == Split(r, Sep);
    if Join(sorted, Sep) == "" {
      assert p == [key];
      assert ModTokens(r) == [] && KeyToken(r) == key;
    } else {
      assert p == sorted + [key];
      assert ModTokens(r) == sorted && KeyToken(r) == key;
      SortSorted(sorted);
    }
  }

  /** The structured descriptor `{ctrl, alt, shift, meta, key}`; an absent flag is false. */
  datatype Combo = Combo(ctrl: bool, alt: bool, shift: bool, meta: bool, key: string)

  /** `[ctrl && "ctrl", alt && "alt", shift && "shift", meta && "meta"].filter(Boolean)`. */
  function FlagModifiers(c: Combo): (mods: seq<string>)
    ensures |mods| <= 4
    ensures forall i :: 0 <= i < |mods| ==> mods[i] in ModifierNames
    ensures ("ctrl" in mods <==> c.ctrl) && ("alt" in mods <==> c.alt)
    ensures ("shift" in mods <==> c.shift) && ("meta" in mods <==> c.meta)
  {
    (if c.ctrl then ["ctrl"] else [])
    + (if c.alt then ["alt"] else [])
    + (if c.shift then ["shift"] else [])
    + (if c.meta then ["meta"] else [])
  }

  /** `normalizeCombo` on a structured descriptor: the set flags sorted, then the lowercased key. */
  function NormalizeRecord(c: Combo): (r: string)
    ensures IsLower(r)
    ensures !(c.ctrl || c.alt || c.shift || c.meta) ==> r == Lower(c.key)
  {
    var mods := FlagModifiers(c);
    ModifierNamesLower();
    LowerIsLower(c.key);
    AssembleLower(mods, Lower(c.key));
    Assemble(mods, Lower(c.key))
  }

  /** The modifier names are already lower case. */
  lemma ModifierNamesLower()
    ensures forall m :: m in ModifierNames ==> IsLower(m)
  {
    assert IsLower("alt") && IsLower("ctrl") && IsLower("meta") && IsLower("shift");
  }

  /** The set flags written out directly in alphabetical order: alt, ctrl, meta, shift. */
  function CanonicalModifiers(c: Combo): (mods: seq<string>)
    ensures Sorted(mods)
    ensures forall i :: 0 <= i < |mods| ==> mods[i] in ModifierNames
  {
    assert LexLess("alt", "ctrl") && LexLess("ctrl", "meta") && LexLess("meta", "shift");
    LexTransitive("alt", "ctrl", "meta");
    LexTransitive("alt", "meta", "shift");
    LexTransitive("ctrl", "meta", "shift");
    (if c.alt then ["alt"] else [])
    + (if c.ctrl then ["ctrl"] else [])
    + (if c.meta then ["meta"] else [])
    + (if c.shift then ["shift"] else [])
  }

  /**
   A structured combo normalises to exactly the set flags in the order
   alt < ctrl < meta < shift, each followed by `+`, then the lowercased key.
   */
  lemma NormalizeRecordCanonical(c: Combo)
    ensures var mods := CanonicalModifiers(c);
      NormalizeRecord(c) == if mods == [] then Lower(c.key) else Join(mods + [Lower(c.key)], Sep)
  {
    var mods := CanonicalModifiers(c);
    assert multiset(FlagModifiers(c)) == multiset(mods);
    assert "" !in ModifierNames;
    NormalizeRecordAssembles(c);
    AssembleSortedPermutation(FlagModifiers(c), mods, Lower(c.key));
  }

  /**
   Assembling modifiers that are a permutation of a sorted list of
   non-empty names writes that list, then the key.
   */
  lemma AssembleSortedPermutation(fm: seq<string>, mods: seq<string>, key: string)
    requires Sorted(mods) && multiset(fm) == multiset(mods)
    requires forall i :: 0 <= i < |mods| ==> mods[i] != ""
    ensures Assemble(fm, key) == if mods == [] then key else Join(mods + [key], Sep)
  {
    SortedUnique(Sort(fm), mods);
    JoinEmpty(mods, Sep);
    if mods != [] {
      JoinAppend(mods, key, Sep);
    }
  }

  /**
   The two notations agree: a string whose modifier tokens are, up to order
   and case, the set flags of a structured combo with the same key (up to
   case) normalises to the same text, so `{ctrl: true, key: "S"}` and
   `"Ctrl+S"` both give `"ctrl+s"`.
   */
  lemma NormalizeRecordMatchesString(c: Combo, mods: seq<string>, key: string)
    requires forall i :: 0 <= i < |mods| ==> Sep !in mods[i]
    requires Sep !in key && Lower(key) == Lower(c.key)
    requires multiset(LowerAll(mods)) == multiset(FlagModifiers(c))
    ensures NormalizeString(Join(mods + [key], Sep)) == NormalizeRecord(c)
  {
    ModTokensOfJoin(mods, key);
    SortPermutationInvariant(LowerAll(mods), FlagModifiers(c));
  }

  /* ------------------------------------------------------------ events */

  /** The modifier flags and `key` of a `KeyboardEvent`. */
  datatype KeyEvent = KeyEvent(ctrlKey: bool, altKey: bool, shiftKey: bool, metaKey: bool, key: string)

  /** The names pushed for the pressed modifiers, in the order ctrl, alt, shift, meta. */
  function EventModifiers(e: KeyEvent): (mods: seq<string>)
    ensures |mods| <= 4
    ensures forall i :: 0 <= i < |mods| ==> mods[i] in ModifierNames
    ensures forall i, j :: 0 <= i < j < |mods| ==> mods[i] != mods[j]
    ensures |mods| == 0 <==> !(e.ctrlKey || e.altKey || e.shiftKey || e.metaKey)
  {
    var a := if e.ctrlKey then ["ctrl"] else [];
    var b := a + if e.altKey then ["alt"] else [];
    var c := b + if e.shiftKey then ["shift"] else [];
    c + if e.metaKey then ["meta"] else []
  }

  /** `getComboFromEvent`: the sorted pressed modifiers and the lowercased key. */
  function ComboFromEvent(e: KeyEvent): (r: string)
    ensures IsLower(r)
    ensures !(e.ctrlKey || e.altKey || e.shiftKey || e.metaKey) ==> r == Lower(e.key)
  {
    var mods := EventModifiers(e);
    var key := Lower(e.key);
    ModifierNamesLower();
    LowerIsLower(e.key);
    AssembleLower(mods, key);
    assert |mods| > 0 ==> Join(Sort(mods), Sep) != "" by {
      if |mods| > 0 {
        SortWithin(mods, ModifierNames);
        JoinEmpty(Sort(mods), Sep);
      }
    }
    if |mods| > 0 then Join(Sort(mods), Sep) + [Sep] + key else key
  }

  /** The combo read from an event is the normalisation of the structured combo built from its flags. */
  lemma ComboFromEventIsNormalizeRecord(e: KeyEvent)
    ensures ComboFromEvent(e) == NormalizeRecord(Combo(e.ctrlKey, e.altKey, e.shiftKey, e.metaKey, e.key))
  {
    var c := Combo(e.ctrlKey, e.altKey, e.shiftKey, e.metaKey, e.key);
    assert FlagModifiers(c) == EventModifiers(e);
    NormalizeRecordAssembles(c);
    ComboFromEventAssembles(e);
  }

  /** The descriptor's normal form is its flags assembled with the lowercased key. */
  lemma NormalizeRecordAssembles(c: Combo)
    ensures NormalizeRecord(c) == Assemble(FlagModifiers(c), Lower(c.key))
  {
  }

  /** The event's combo is its pressed modifiers assembled with the lowercased key. */
  lemma ComboFromEventAssembles(e: KeyEvent)
    ensures ComboFromEvent(e) == Assemble(EventModifiers(e), Lower(e.key))
  {
    var mods := EventModifiers(e);
    var key := Lower(e.key);
    var r := ComboFromEvent(e);
    assert r == if |mods| > 0 then Join(Sort(mods), Sep) + [Sep] + key else key;
    AssembleNamedModifiers(mods, key);
  }

  /** Modifier names joined after sorting, then `+` and the key: the assembled combo. */
  lemma AssembleNamedModifiers(mods: seq<string>, key: string)
    requires forall i :: 0 <= i < |mods| ==> mods[i] in ModifierNames
    ensures Assemble(mods, key) == if |mods| > 0 then Join(Sort(mods), Sep) + [Sep] + key else key
  {
    assert "" !in ModifierNames;
    assert forall i :: 0 <= i < |mods| ==> mods[i] != "";
    AssembleNonEmptyTokens(mods, key);
  }

  /** With no empty modifier token, the key stands alone exactly when there are no modifiers. */
  lemma AssembleNonEmptyTokens(mods: seq<string>, key: string)
    requires forall i :: 0 <= i < |mods| ==> mods[i] != ""
    ensures Assemble(mods, key) == if |mods| > 0 then Join(Sort(mods), Sep) + [Sep] + key else key
  {
    SortJoinEmpty(mods, Sep);
    JoinEmpty(mods, Sep);
  }

  /** `"Ctrl+S"`, `{ctrl: true, key: "S"}` and a ctrl-s key-down all give `"ctrl+s"`. */
  lemma ExampleCtrlS()
    ensures NormalizeString("Ctrl+S") == "ctrl+s"
    ensures NormalizeRecord(Combo(true, false, false, false, "S")) == "ctrl+s"
    ensures ComboFromEvent(KeyEvent(true, false, false, false, "s")) == "ctrl+s"
  {
    var c := Combo(true, false, false, false, "S");
    LowerLiterals();
    AssembleOne("ctrl", "s");
    assert "ctrl" + [Sep] + "s" == "ctrl+s";
    JoinTwo("Ctrl", "S");
    assert "Ctrl" + [Sep] + "S" == "Ctrl+S";
    ModTokensOfJoin(["Ctrl"], "S");
    assert NormalizeString("Ctrl+S") == Assemble(["ctrl"], "s");
    assert FlagModifiers(c) == ["ctrl"];
    assert NormalizeRecord(c) == Assemble(["ctrl"], "s");
    var e := KeyEvent(true, false, false, false, "s");
    ComboFromEventIsNormalizeRecord(e);
    assert FlagModifiers(Combo(true, false, false, false, "s")) == ["ctrl"];
  }

  /** The last piece is the key wherever it is written: `"s+ctrl"` keeps `ctrl` as its key. */
  lemma ExampleKeyStaysLast()
    ensures NormalizeString("s+ctrl") == "s+ctrl"
    ensures NormalizeString("s+ctrl") != NormalizeString("Ctrl+S")
  {
    var c := "s+ctrl";
    JoinTwo("s", "ctrl");
    assert "s" + [Sep] + "ctrl" == c;
    assert Join(["s"] + ["ctrl"], Sep) == c;
    ModTokensOfJoin(["s"], "ctrl");
    LowerLiterals();
    AssembleOne("s", "ctrl");
    assert NormalizeString(c) == Assemble(["s"], "ctrl");
    ExampleCtrlS();
    assert c[0] != "ctrl+s"[0];
  }

  /** Two tokens join with one separator between them. */
  lemma JoinTwo(a: string, b: string)
    ensures Join([a] + [b], Sep) == a + [Sep] + b
  {
    JoinAppend([a], b, Sep);
  }

  /** The lowercase literals of the examples are their own lowercase forms. */
  lemma LowerLiterals()
    ensures LowerAll(["s"]) == ["s"]
    ensures Lower("ctrl") == "ctrl"
    ensures LowerAll(["Ctrl"]) == ["ctrl"]
    ensures Lower("S") == "s" && Lower("s") == "s"
  {
    assert Lower("s") == "s";
    assert Lower("Ctrl") == "ctrl";
  }

  /** A single non-empty modifier is written before the key. */
  lemma AssembleOne(m: string, key: string)
    requires m != ""
    ensures Assemble([m], key) == m + [Sep] + key
  {
    SortSorted([m]);
  }

  /**
   How the pieces of an event combo with key `+` end: two empty pieces,
   with a modifier name before them if there is anything before them.
   */
  predicate EndsLikePlusKey(out: seq<string>)
  {
    && |out| >= 2 && out[|out| - 1] == "" && out[|out| - 2] == ""
    && (|out| == 2 || out[|out| - 3] in ModifierNames)
  }

  /**
   An event whose key is `+` never equals the normalisation of any string
   combo: splitting on `+` turns the key into empty pieces, so `"ctrl++"`
   normalises to `"+ctrl+"` while ctrl and `+` pressed together give
   `"ctrl++"`. No binding from the string table can ever fire for it.
   */
  lemma PlusKeyNeverMatchesStringCombo(e: KeyEvent, combo: string)
    requires e.key == "+"
    ensures NormalizeString(combo) != ComboFromEvent(e)
  {
    var r := NormalizeString(combo);
    NormalizeStringTokens(combo);
    PlusEventTokens(e);
    SortedPiecesNeverEndInPlus(Split(r, Sep), ModTokens(combo));
  }

  /**
   The pieces of a normalised string combo (sorted modifiers, then a key;
   a single piece when the modifiers join to nothing) never end the way an
   event with key `+` does: two empty pieces, with a modifier name before
   them if there is anything before them.
   */
  lemma SortedPiecesNeverEndInPlus(out: seq<string>, mods: seq<string>)
    requires |out| >= 1 && Sorted(out[..|out| - 1])
    requires Join(mods, Sep) == "" ==> |out| == 1
    requires Join(mods, Sep) != "" ==> multiset(out[..|out| - 1]) == multiset(mods)
    ensures !EndsLikePlusKey(out)
  {
    var n := |out|;
    var pre := out[..n - 1];
    JoinOfEmptyToken(mods);
    if n == 2 {
      assert pre == [out[0]];
    }
    if n >= 3 {
      assert LexLessEq(pre[n - 3], pre[n - 2]);
      assert "" !in ModifierNames;
    }
  }

  /** Modifiers consisting of one empty token join to the empty string. */
  lemma JoinOfEmptyToken(mods: seq<string>)
    ensures multiset(mods) == multiset{""} ==> Join(mods, Sep) == ""
  {
    if multiset(mods) == multiset{""} {
      assert |mods| == 1;
      assert mods[0] in multiset(mods);
    }
  }

  /** With `+` as the key, the event combo ends in two separators, or is `+` alone. */
  lemma PlusEventCombo(e: KeyEvent)
    requires e.key == "+"
    ensures var mods := EventModifiers(e);
      ComboFromEvent(e) == if |mods| == 0 then [Sep] else Join(Sort(mods), Sep) + [Sep] + [Sep]
  {
    assert Lower(e.key) == [Sep];
  }

  /** Sorted modifier names followed by two separators split back into the names and two empty pieces. */
  lemma SortedModifiersThenSeps(mods: seq<string>)
    requires |mods| > 0
    requires forall i :: 0 <= i < |mods| ==> mods[i] in ModifierNames
    ensures var sorted := Sort(mods);
      && |sorted| > 0 && sorted[|sorted| - 1] in ModifierNames
      && Split(Join(sorted, Sep) + [Sep] + [Sep], Sep) == sorted + ["", ""]
  {
    var sorted := Sort(mods);
    SortWithin(mods, ModifierNames);
    ModifierNamesSepFree();
    SplitTrailingSeps(sorted, Sep);
  }

  /** No modifier name contains the separator. */
  lemma ModifierNamesSepFree()
    ensures forall m :: m in ModifierNames ==> Sep !in m
  {
  }

  /**
   Read back through `split`, the combo of a key-down whose key is `+` ends
   in two empty pieces, preceded by a modifier name if any was pressed.
   */
  lemma PlusEventTokens(e: KeyEvent)
    requires e.key == "+"
    ensures EndsLikePlusKey(Split(ComboFromEvent(e), Sep))
  {
    PlusEventCombo(e);
    PiecesEndingInTwoSeps(ComboFromEvent(e), EventModifiers(e));
  }

  /** The pieces of `+` alone, or of sorted modifier names followed by two separators. */
  lemma PiecesEndingInTwoSeps(c: string, mods: seq<string>)
    requires forall i :: 0 <= i < |mods| ==> mods[i] in ModifierNames
    requires c == if |mods| == 0 then [Sep] else Join(Sort(mods), Sep) + [Sep] + [Sep]
    ensures EndsLikePlusKey(Split(c, Sep))
  {
    if |mods| == 0 {
      SplitLoneSep(Sep);
    } else {
      SortedModifiersThenSeps(mods);
    }
  }

  /* ------------------------------------------------------ binding table */

  /** The normalised key entry `i` of a bindings list is installed under. */
  function EntryCombo<H>(entries: seq<(string, H)>, i: nat): string
    requires i < |entries|
  {
    NormalizeString(entries[i].0)
  }

  /** The entries with every combo replaced by its normal form. */
  function Normalized<H>(entries: seq<(string, H)>): (pairs: seq<(string, H)>)
    ensures |pairs| == |entries|
    ensures forall i :: 0 <= i < |entries| ==> pairs[i] == (EntryCombo(entries, i), entries[i].1)
  {
    seq(|entries|, i requires 0 <= i < |entries| => (EntryCombo(entries, i), entries[i].1))
  }

  /**
   `setBindings`: a fresh table holding every entry under its normalised
   combo. Nothing of an earlier table is consulted; the keys are exactly
   the normalised combos of the entries.
   */
  function SetBindings<H>(entries: seq<(string, H)>): (t: map<string, H>)
    ensures forall i :: 0 <= i < |entries| ==> EntryCombo(entries, i) in t
    ensures forall k :: k in t ==> exists i :: 0 <= i < |entries| && EntryCombo(entries, i) == k
  {
    Install(Normalized(entries))
  }

  /** Where two entries normalise to the same combo, the later entry's handler is installed. */
  lemma SetBindingsLastWins<H>(entries: seq<(string, H)>, i: nat)
    requires i < |entries| && LastFor(Normalized(entries), i)
    ensures SetBindings(entries)[EntryCombo(entries, i)] == entries[i].1
  {
    InstallLastWins(Normalized(entries), i);
  }

  /** What the dispatcher does, in order: suppress the default action, then call a handler. */
  datatype Effect<H> = PreventDefault(event: KeyEvent) | Invoke(handler: H, event: KeyEvent)

  /**
   The key-down listener: on a table hit for the event's combo, prevent the
   default action and then invoke that handler with the event; otherwise
   do nothing.
   */
  function Dispatch<H>(table: map<string, H>, e: KeyEvent): (effs: seq<Effect<H>>)
    ensures ComboFromEvent(e) !in table ==> effs == []
    ensures ComboFromEvent(e) in table ==>
      effs == [PreventDefault(e), Invoke(table[ComboFromEvent(e)], e)]
  {
    var combo := ComboFromEvent(e);
    if combo in table then [PreventDefault(e), Invoke(table[combo], e)] else []
  }

  /* ------------------------------------------------------------ registry */

  /** The current table and whether the window listener is attached. */
  datatype Registry<H> = Registry(table: map<string, H>, listening: bool)

  datatype RegistryEvent<H> =
    | KeyDown(event: KeyEvent)
    | Replace(entries: seq<(string, H)>)
    | Unmount

  datatype Outcome<H> = Outcome(registry: Registry<H>, effects: seq<Effect<H>>)

  /** Mounting installs the initial bindings and attaches the listener. */
  function Mount<H>(initial: seq<(string, H)>): (r: Registry<H>)
    ensures r.listening
    ensures forall i :: 0 <= i < |initial| ==> EntryCombo(initial, i) in r.table
    ensures forall k :: k in r.table ==> exists i :: 0 <= i < |initial| && EntryCombo(initial, i) == k
  {
    Registry(SetBindings(initial), true)
  }

  /**
   One step of the registry. A key-down reads the table current at that
   moment; the replace function returned to the caller swaps in a wholly
   new table; unmounting detaches the listener.
   */
  function Step<H>(r: Registry<H>, ev: RegistryEvent<H>): (o: Outcome<H>)
    ensures ev.KeyDown? ==> o.registry == r
    ensures ev.KeyDown? && r.listening ==> (o.effects != [] <==> ComboFromEvent(ev.event) in r.table)
    ensures o.effects != [] ==> ev.KeyDown? && r.listening
    ensures ev.Replace? ==> o.registry.listening == r.listening
    ensures ev.Replace? ==> forall k :: k in o.registry.table <==>
      exists i :: 0 <= i < |ev.entries| && EntryCombo(ev.entries, i) == k
    ensures ev.Unmount? ==> !o.registry.listening && o.registry.table == r.table
  {
    match ev
    case KeyDown(e) => Outcome(r, if r.listening then Dispatch(r.table, e) else [])
    case Replace(entries) => Outcome(Registry(SetBindings(entries), r.listening), [])
    case Unmount => Outcome(Registry(r.table, false), [])
  }

  /** The effects of a key-down arriving right after `entries` replaced the table. */
  function AfterReplace<H>(r: Registry<H>, entries: seq<(string, H)>, e: KeyEvent): seq<Effect<H>>
  {
    Step(Step(r, Replace(entries)).registry, KeyDown(e)).effects
  }

  /**
   After a replace, a key-down does something iff some new entry normalises
   to the event's combo; what the old table held makes no difference, so
   the tables are never merged.
   */
  lemma ReplaceSupersedes<H>(r1: Registry<H>, r2: Registry<H>, entries: seq<(string, H)>, e: KeyEvent)
    requires r1.listening && r2.listening
    ensures AfterReplace(r1, entries, e) != [] <==>
      exists i :: 0 <= i < |entries| && EntryCombo(entries, i) == ComboFromEvent(e)
    ensures AfterReplace(r1, entries, e) == AfterReplace(r2, entries, e)
  {
    var t := SetBindings(entries);
    assert ComboFromEvent(e) in t <==>
      exists i :: 0 <= i < |entries| && EntryCombo(entries, i) == ComboFromEvent(e);
  }

  /**
   After a replace, the handler a matching key-down invokes is that of the
   last new entry normalising to the event's combo, after `preventDefault`.
   */
  lemma ReplaceDispatchesLast<H>(r: Registry<H>, entries: seq<(string, H)>, e: KeyEvent, i: nat)
    requires r.listening
    requires i < |entries| && EntryCombo(entries, i) == ComboFromEvent(e)
    requires LastFor(Normalized(entries), i)
    ensures AfterReplace(r, entries, e) == [PreventDefault(e), Invoke(entries[i].1, e)]
  {
    SetBindingsLastWins(entries, i);
  }

  /** Runs a sequence of events, collecting the effects in order. */
  function Run<H>(r: Registry<H>, evs: seq<RegistryEvent<H>>): (o: Outcome<H>)
    ensures o.registry.listening ==> r.listening
    ensures |o.effects| <= 2 * |evs|
    decreases |evs|
  {
    if |evs| == 0 then Outcome(r, [])
    else
      var o := Step(r, evs[0]);
      var rest := Run(o.registry, evs[1..]);
      Outcome(rest.registry, o.effects + rest.effects)
  }

  /** Once the listener is detached, no later event has any effect. */
  lemma {:induction false} NothingAfterUnmount<H>(r: Registry<H>, evs: seq<RegistryEvent<H>>)
    requires !r.listening
    ensures Run(r, evs).effects == []
    ensures !Run(r, evs).registry.listening
    decreases |evs|
  {
    if |evs| > 0 {
      NothingAfterUnmount(Step(r, evs[0]).registry, evs[1..]);
    }
  }

  /**
   Key-down `n` of a run found handler `h` bound under its combo in the
   table current just before it, with the listener attached.
   */
  ghost predicate DispatchedFrom<H>(r: Registry<H>, evs: seq<RegistryEvent<H>>, n: nat, h: H)
    requires n < |evs|
  {
    && evs[n].KeyDown?
    && var s := Run(r, evs[..n]).registry;
    && s.listening
    && ComboFromEvent(evs[n].event) in s.table
    && s.table[ComboFromEvent(evs[n].event)] == h
  }

  /** Running the first `n + 1` events is the first step followed by the next `n`. */
  lemma RunConsPrefix<H>(r: Registry<H>, evs: seq<RegistryEvent<H>>, n: nat)
    requires n < |evs|
    ensures Run(r, evs[..n + 1]).registry == Run(Step(r, evs[0]).registry, evs[1..][..n]).registry
  {
    var pre := evs[..n + 1];
    assert pre[0] == evs[0];
    assert pre[1..] == evs[1..][..n];
  }

  /** A handler one step invokes is bound under the event's combo in the current table, with the listener attached. */
  lemma StepInvokesOnlyBound<H>(r: Registry<H>, ev: RegistryEvent<H>, k: nat)
    requires k < |Step(r, ev).effects|
    requires Step(r, ev).effects[k].Invoke?
    ensures ev.KeyDown? && r.listening
    ensures ComboFromEvent(ev.event) in r.table
    ensures r.table[ComboFromEvent(ev.event)] == Step(r, ev).effects[k].handler
  {
    assert ev.KeyDown? && r.listening;
    assert Step(r, ev).effects == Dispatch(r.table, ev.event);
  }

  /**
   Every handler a run invokes was bound, in the table current just before
   that key-down, under the event's combo, with the listener attached.
   */
  lemma {:induction false} RunInvokesOnlyBound<H>(r: Registry<H>, evs: seq<RegistryEvent<H>>, k: nat)
    requires k < |Run(r, evs).effects|
    requires Run(r, evs).effects[k].Invoke?
    ensures exists n :: 0 <= n < |evs| && DispatchedFrom(r, evs, n, Run(r, evs).effects[k].handler)
    decreases |evs|
  {
    var o := Step(r, evs[0]);
    var rest := Run(o.registry, evs[1..]);
    if k < |o.effects| {
      var h := o.effects[k].handler;
      assert Run(r, evs).effects[k] == o.effects[k];
      StepInvokesOnlyBound(r, evs[0], k);
      assert Run(r, evs[..0]).registry == r;
      assert DispatchedFrom(r, evs, 0, h);
    } else {
      var h := rest.effects[k - |o.effects|].handler;
      assert Run(r, evs).effects[k].handler == h;
      RunInvokesOnlyBound(o.registry, evs[1..], k - |o.effects|);
      var n :| 0 <= n < |evs[1..]| && DispatchedFrom(o.registry, evs[1..], n, h);
      var e := evs[n + 1];
      assert e == evs[1..][n];
      RunConsPrefix(r, evs, n);
      var s := Run(r, evs[..n + 1]).registry;
      assert s == Run(o.registry, evs[1..][..n]).registry;
      assert e.KeyDown? && s.listening && ComboFromEvent(e.event) in s.table;
      assert s.table[ComboFromEvent(e.event)] == h;
      assert DispatchedFrom(r, evs, n + 1, h);
    }
  }

}
