/** The flag lines of fly.toml spelled out, piece by piece, and what `set_flag_false`
    does to them: exactly when it edits, and the one piece of the text that it changes. */
module FlyTomlLines {
  import opened Text
  import opened FlyToml
  import opened FlyTomlProofs

  // ---------- one line ----------

  /** The pieces of a flag line: `before` and `after` stand round the equals sign. */
  datatype Line = Line(indent: string, name: string, before: string, after: string, value: string)

  function Head(l: Line): string { l.indent + (l.name + (l.before + ("=" + l.after))) }

  function Spelled(l: Line): string { Head(l) + "\"" + (l.value + "\"") }

  /** The key in any letter case, blanks, and a value without quotes and backslashes. */
  predicate IsLine(l: Line, key: string) {
    && All(l.indent, IsTab) && All(l.before, IsTab) && All(l.after, IsTab)
    && |l.name| == |key| && (forall i | 0 <= i < |key| :: FoldsTo(l.name[i], key[i]))
    && All(l.value, IsValueChar)
  }

  /** The line stands in the text at `i`, where a line of the text starts. */
  predicate StandsAt(text: string, key: string, i: nat, l: Line) {
    && IsLine(l, key) && OccursAt(text, Spelled(l), i)
    && (i == 0 || text[i - 1] == '\n')
  }

  lemma {:induction false} TabIsNoKey(c: char, k: char)
    requires FoldsTo(c, k) && ('A' <= k <= 'Z' || k == '_')
    ensures !IsTab(c) && c != '"' && c != '='
  {
  }

  lemma {:induction false} HeadOfLine(l: Line, key: string)
    requires IsLine(l, key) && IsKey(key)
    ensures IsHead(Head(l), key) && All(Head(l), NotQuote) && RunLength(Head(l), IsTab) == |l.indent|
  {
    var rest := l.before + ("=" + l.after);
    NameOfLine(l, key, rest);
    RunExact(l.indent, l.name + rest, IsTab);
    RunExact(l.before, "=" + l.after, IsTab);
    HeadPieces(l, key);
    HeadHasNoQuote(l, key);
    hide RunLength, KeyAt, IsKey, FoldsTo, All, IsTab, NotQuote;
  }

  lemma {:induction false} NameOfLine(l: Line, key: string, rest: string)
    requires IsLine(l, key) && IsKey(key)
    ensures KeyAt(l.name + rest, key) && l.name + rest != "" && !IsTab((l.name + rest)[0])
  {
    assert key[0] in key;
    TabIsNoKey(l.name[0], key[0]);
  }

  lemma {:induction false} HeadHasNoQuote(l: Line, key: string)
    requires IsLine(l, key) && IsKey(key)
    ensures All(Head(l), NotQuote)
  {
    forall i | 0 <= i < |l.name| ensures NotQuote(l.name[i]) {
      assert key[i] in key;
      TabIsNoKey(l.name[i], key[i]);
    }
    TabsHaveNoQuote(l.indent);
    TabsHaveNoQuote(l.before);
    TabsHaveNoQuote(l.after);
    assert All("=", NotQuote) && All(l.name, NotQuote);
    hide All, IsLine, IsKey;
    AllConcat("=", l.after, NotQuote);
    AllConcat(l.before, "=" + l.after, NotQuote);
    AllConcat(l.name, l.before + ("=" + l.after), NotQuote);
    AllConcat(l.indent, l.name + (l.before + ("=" + l.after)), NotQuote);
  }

  lemma {:induction false} TabsHaveNoQuote(s: string)
    requires All(s, IsTab)
    ensures All(s, NotQuote)
  {
  }

  lemma {:induction false} HeadPieces(l: Line, key: string)
    requires |l.name| == |key|
    ensures var h := Head(l);
            var rest := l.before + ("=" + l.after);
            && h[|l.indent|..] == l.name + rest && h[|l.indent| + |key|..] == rest
            && rest[|l.before|] == '=' && rest[|l.before| + 1..] == l.after && |l.before| < |rest|
  {
  }

  /** A spelled line is read as the flag it spells. */
  lemma {:induction false} LineIsRead(text: string, key: string, i: nat, l: Line)
    requires StandsAt(text, key, i, l) && IsKey(key)
    ensures FlagAt(text, key, i) == Some(Flag(l.indent, l.value, |Spelled(l)|))
  {
    var rest := text[i + |Spelled(l)|..];
    HeadOfLine(l, key);
    assert text[i..] == Spelled(l) + rest;
    assert All(l.value, IsValueChar);
    assert Head(l)[..|l.indent|] == l.indent;
    LineTail(Head(l), l.value, rest, key);
    hide IsHead, RunLength, All, FlagHere, IsTab, IsKey, FoldsTo;
  }

  lemma {:induction false} Regroup(head: string, quote: string, value: string, rest: string)
    ensures head + quote + (value + quote) + rest == head + quote + (value + (quote + rest))
    ensures (value + (quote + rest))[..|value|] == value
  {
    assert (value + quote) + rest == value + (quote + rest);
    assert (head + quote) + (value + quote) + rest == (head + quote) + ((value + quote) + rest);
  }

  lemma {:induction false} LineTail(head: string, value: string, rest: string, key: string)
    requires IsHead(head, key) && All(head, NotQuote) && All(value, IsValueChar)
    ensures FlagHere(head + "\"" + (value + "\"") + rest, key)
         == Some(Flag(head[..RunLength(head, IsTab)], value, |head| + 1 + |value| + 1))
  {
    var tail := value + ("\"" + rest);
    Regroup(head, "\"", value, rest);
    FlagSplit(head, tail, key);
    RunExact(value, "\"" + rest, IsValueChar);
    hide IsHead, RunLength, All, FlagHere, NotQuote, IsValueChar;
  }

  /** And whatever is read as a flag spells a line. */
  lemma {:induction false} ReadIsLine(text: string, key: string, i: nat) returns (l: Line)
    requires FlagAt(text, key, i).Some? && IsKey(key)
    ensures StandsAt(text, key, i, l)
  {
    assert i <= |text| && LineStart(text, i);
    hide FlagAt, IsHead, FoldsTo, IsTab, IsValueChar, IsKey, All;
    var q, v := FlagParts(text, key, i);
    var h, value := text[i..i + q], text[i + q + 1..i + q + 1 + v];
    var a, name, b, c := SpelledHead(h, key);
    l := Line(a, name, b, c, value);
    PiecesStand(text, i, q, v);
  }

  lemma {:induction false} PiecesStand(text: string, i: nat, q: nat, v: nat)
    requires i + q + 1 + v < |text| && text[i + q] == '"' && text[i + q + 1 + v] == '"'
    ensures var piece := text[i..i + q] + "\"" + (text[i + q + 1..i + q + 1 + v] + "\"");
            OccursAt(text, piece, i)
  {
  }

  lemma {:induction false} KeyIsSpelled(h: string, i: nat, key: string)
    requires i + |key| <= |h| && KeyAt(h[i..], key)
    ensures var name := h[i..][..|key|]; |name| == |key| && forall j | 0 <= j < |key| :: FoldsTo(name[j], key[j])
  {
    hide FoldsTo;
  }

  lemma {:induction false} SpelledHead(h: string, key: string) returns (a: string, name: string, b: string, c: string)
    requires IsHead(h, key) && IsKey(key)
    ensures h == a + (name + (b + ("=" + c)))
    ensures All(a, IsTab) && All(b, IsTab) && All(c, IsTab)
    ensures |name| == |key| && forall i | 0 <= i < |key| :: FoldsTo(name[i], key[i])
  {
    hide IsTab, RunLength, IsKey, IsHead, All, KeyAt, FoldsTo;
    HeadBounds(h, key);
    var i := RunLength(h, IsTab);
    RunAll(h, IsTab);
    KeyIsSpelled(h, i, key);
    var rest := h[i + |key|..];
    var k := RunLength(rest, IsTab);
    RunAll(rest, IsTab);
    a, name, b, c := h[..i], h[i..][..|key|], rest[..k], rest[k + 1..];
    HeadCut(h, i, |key|, rest, k);
  }

  // ---------- the one declaration of a flag ----------

  /** The line at `s` declares the flag, and every other line of the flag is part of
      that line's own value. */
  ghost predicate DeclaredAt(text: string, key: string, s: nat, l: Line) {
    StandsAt(text, key, s, l) && forall i: nat, m: Line | StandsAt(text, key, i, m) :: s <= i < s + |Spelled(l)|
  }

  /** One of the five words that mean off, in any letter case, between blanks. */
  ghost predicate OffWord(value: string) {
    exists word <- ["", "false", "0", "no", "off"] :: SameLetters(Strip(value), word)
  }

  predicate SameLetters(s: string, word: string) {
    |s| == |word| && forall i | 0 <= i < |s| :: s[i] == word[i] || ('a' <= word[i] <= 'z' && s[i] as int + 32 == word[i] as int)
  }

  /** The text declares the flag once, and off. */
  ghost predicate ReadsOff(text: string, key: string) {
    exists s: nat, l: Line :: DeclaredAt(text, key, s, l) && OffWord(l.value)
  }

  lemma {:induction false} LettersAreLower(s: string, word: string)
    requires forall c <- word :: 'a' <= c <= 'z' || c == '0'
    ensures SameLetters(s, word) <==> Lower(s) == word
  {
    if |s| == |word| {
      forall i | 0 <= i < |s| ensures LowerChar(s[i]) == word[i] <==> s[i] == word[i] || ('a' <= word[i] <= 'z' && s[i] as int + 32 == word[i] as int) {
        assert word[i] in word;
      }
      if Lower(s) == word { assert forall i | 0 <= i < |s| :: LowerChar(s[i]) == word[i]; }
    }
  }

  lemma {:induction false} OffWordsAreOff(value: string)
    ensures IsOff(value) <==> OffWord(value)
  {
    var v := Strip(value);
    LettersAreLower(v, "");
    LettersAreLower(v, "false");
    LettersAreLower(v, "0");
    LettersAreLower(v, "no");
    LettersAreLower(v, "off");
    hide SameLetters, Lower, Strip;
    var words := ["", "false", "0", "no", "off"];
    assert words[0] == "" && words[1] == "false" && words[2] == "0" && words[3] == "no" && words[4] == "off";
  }

  lemma {:induction false} DeclaredIsSingle(text: string, key: string, s: nat, l: Line)
    requires IsKey(key) && StandsAt(text, key, s, l)
    ensures DeclaredAt(text, key, s, l) <==> Single(text, key, s)
  {
    LineIsRead(text, key, s, l);
    hide StandsAt, FlagAt, Spelled;
    if DeclaredAt(text, key, s, l) {
      forall i: nat | FlagAt(text, key, i).Some? ensures s <= i < s + |Spelled(l)| { var m := ReadIsLine(text, key, i); }
    }
    if Single(text, key, s) {
      forall i: nat, m: Line | StandsAt(text, key, i, m) ensures s <= i < s + |Spelled(l)| { LineIsRead(text, key, i, m); InText(text, key, i, m); }
    }
  }

  lemma {:induction false} InText(text: string, key: string, i: nat, m: Line)
    requires StandsAt(text, key, i, m)
    ensures i <= |text|
  {
  }

  /** The flag is edited exactly when one line declares it. When that line says off the
      text stays; else the line, and nothing else, is replaced by the key and "false"
      behind its own indent. */
  lemma {:induction false} EditExactly(text: string, key: string)
    requires IsKey(key)
    ensures SetFlagFalse(text, key).Edited? <==> exists s: nat, l: Line :: DeclaredAt(text, key, s, l)
    ensures forall s: nat, l: Line | DeclaredAt(text, key, s, l) ::
      SetFlagFalse(text, key) == Replaced(text, key, s, l)
    ensures SetFlagFalse(text, key) == Missing <==> forall i: nat, m: Line :: !StandsAt(text, key, i, m)
  {
    forall s: nat, l: Line | DeclaredAt(text, key, s, l) ensures SetFlagFalse(text, key) == Replaced(text, key, s, l) {
      DeclaredEdit(text, key, s, l);
    }
    if SetFlagFalse(text, key).Edited? { var s, l := EditedIsDeclared(text, key); }
    MissingExactly(text, key);
    hide DeclaredAt, SetFlagFalse, StandsAt;
  }

  /** The edit that a declaration calls for. */
  ghost function Replaced(text: string, key: string, s: nat, l: Line): Edit
    requires s + |Spelled(l)| <= |text|
  {
    if OffWord(l.value) then Edited(text, false)
    else Edited(text[..s] + (l.indent + key + " = \"false\"") + text[s + |Spelled(l)|..], true)
  }

  lemma {:induction false} DeclaredEdit(text: string, key: string, s: nat, l: Line)
    requires IsKey(key) && DeclaredAt(text, key, s, l)
    ensures SetFlagFalse(text, key) == Replaced(text, key, s, l)
  {
    LineIsRead(text, key, s, l);
    DeclaredIsSingle(text, key, s, l);
    SingleFlags(text, key, s);
    OffWordsAreOff(l.value);
    hide FlagAt, StandsAt, Spelled, OffWord, IsOff, Single, DeclaredAt;
  }

  lemma {:induction false} EditedIsDeclared(text: string, key: string) returns (s: nat, l: Line)
    requires IsKey(key) && SetFlagFalse(text, key).Edited?
    ensures DeclaredAt(text, key, s, l)
  {
    s := Flags(text, key, 0)[0];
    assert s in Flags(text, key, 0) && Flags(text, key, 0) == [s];
    hide FlagAt, StandsAt, Spelled, IsOff, DeclaredAt;
    l := ReadIsLine(text, key, s);
    SingleFlags(text, key, s);
    DeclaredIsSingle(text, key, s, l);
  }

  lemma {:induction false} MissingExactly(text: string, key: string)
    requires IsKey(key)
    ensures SetFlagFalse(text, key) == Missing <==> forall i: nat, m: Line :: !StandsAt(text, key, i, m)
  {
    FlagsEmpty(text, key, 0);
    hide FlagAt, StandsAt, IsOff;
    if SetFlagFalse(text, key) == Missing {
      forall i: nat, m: Line ensures !StandsAt(text, key, i, m) {
        if StandsAt(text, key, i, m) {
          LineIsRead(text, key, i, m);
          InText(text, key, i, m);
        }
      }
    } else {
      var i: nat :| i <= |text| && FlagAt(text, key, i).Some?;
      var m := ReadIsLine(text, key, i);
    }
  }

  lemma {:induction false} OffIsUnedited(text: string, key: string)
    requires IsKey(key)
    ensures ReadsOff(text, key) <==> Unedited(text, key)
  {
    if Unedited(text, key) {
      var s, l := EditedIsDeclared(text, key);
      DeclaredEdit(text, key, s, l);
      LineIsRead(text, key, s, l);
      DeclaredIsSingle(text, key, s, l);
      SingleFlags(text, key, s);
      OffWordsAreOff(l.value);
      hide FlagAt, StandsAt, OffWord, IsOff, DeclaredAt, Single;
    } else if s: nat, l: Line :| DeclaredAt(text, key, s, l) && OffWord(l.value) {
      DeclaredEdit(text, key, s, l);
    }
  }

  // ---------- what an edit does to the two flags ----------

  /** After an edit that succeeds, the flag is declared once and reads off. */
  lemma {:induction false} EditReadsOff(text: string, key: string)
    requires IsKey(key) && SetFlagFalse(text, key).Edited?
    ensures ReadsOff(SetFlagFalse(text, key).text, key)
  {
    EditTurnsOff(text, key);
    hide SetFlagFalse;
    OffIsUnedited(SetFlagFalse(text, key).text, key);
  }

  /** The other flag's declaration starts inside the line that declares this one. */
  ghost predicate RunsOver(text: string, edited: string, other: string) {
    exists s: nat, l: Line, a: nat, m: Line ::
      DeclaredAt(text, edited, s, l) && DeclaredAt(text, other, a, m) && s < a < s + |Spelled(l)|
  }

  lemma {:induction false} RunsOverIsSwallows(text: string, edited: string, other: string)
    requires IsKey(edited) && IsKey(other)
    ensures RunsOver(text, edited, other) <==> Swallows(text, edited, other)
  {
    if Swallows(text, edited, other) {
      var s, a := Flags(text, edited, 0)[0], Flags(text, other, 0)[0];
      assert s in Flags(text, edited, 0) && a in Flags(text, other, 0);
      assert Flags(text, edited, 0) == [s] && Flags(text, other, 0) == [a];
      hide StandsAt, FlagAt, Spelled, DeclaredAt;
      SingleFlags(text, edited, s);
      SingleFlags(text, other, a);
      var l := ReadIsLine(text, edited, s);
      var m := ReadIsLine(text, other, a);
      LineIsRead(text, edited, s, l);
      DeclaredIsSingle(text, edited, s, l);
      DeclaredIsSingle(text, other, a, m);
    }
    if s: nat, l: Line, a: nat, m: Line :| DeclaredAt(text, edited, s, l) && DeclaredAt(text, other, a, m) && s < a < s + |Spelled(l)| {
      LineIsRead(text, edited, s, l);
      DeclaredIsSingle(text, edited, s, l);
      DeclaredIsSingle(text, other, a, m);
      InText(text, edited, s, l);
      InText(text, other, a, m);
      hide StandsAt, FlagAt, Spelled, DeclaredAt, Single;
      SingleFlags(text, edited, s);
      SingleFlags(text, other, a);
    }
  }

  /** An edit leaves the other flag off, if it was, exactly when the edited line does not
      run over it; when it does, the other flag's line is gone. */
  lemma {:induction false} EditAndOther(text: string, edited: string, other: string)
    requires IsKey(edited) && IsKey(other) && Disjoint(other, edited)
    requires ReadsOff(text, other) && SetFlagFalse(text, edited).Edited?
    ensures var e := SetFlagFalse(text, edited);
            && (ReadsOff(e.text, other) <==> !RunsOver(text, edited, other))
            && (!ReadsOff(e.text, other) ==> SetFlagFalse(e.text, other) == Missing)
  {
    OffIsUnedited(text, other);
    OffIsUnedited(SetFlagFalse(text, edited).text, other);
    EditAndOtherFlag(text, edited, other);
    RunsOverIsSwallows(text, edited, other);
    hide ReadsOff, Unedited, SetFlagFalse, RunsOver, Swallows;
  }
}
