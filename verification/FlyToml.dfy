/** The two money flags in the text of fly.toml, and `set_flag_false` of
    scripts/close_live_window.py, which turns one of them off. */
module FlyToml {
  import opened Text

  const LIVE_FLAG := "OPENROUTER_LIVE_EXECUTION_ENABLED"
  const PEER_FLAG := "PEER_CRITIQUE_ENABLED"

  predicate IsTab(c: char) { c == ' ' || c == '\t' }

  predicate NotQuote(c: char) { c != '"' }

  predicate IsValueChar(c: char) { c != '"' && c != '\\' }

  function LowerChar(c: char): char {
    if 'A' <= c <= 'Z' then (c as int + 32) as char else c
  }

  /** Lower case of the Latin letters. No other character's lower case occurs in
      the words it is compared with. */
  function Lower(s: string): string {
    seq(|s|, i requires 0 <= i < |s| => LowerChar(s[i]))
  }

  /** Case-blind match of one key character, which is a capital letter or `_`:
      Python folds the dotted and dotless forms of I as well. */
  predicate FoldsTo(c: char, k: char) {
    c == k || c == LowerChar(k) || (k == 'I' && (c == '\U{130}' || c == '\U{131}'))
  }

  predicate KeyAt(s: string, key: string) {
    |key| <= |s| && forall i :: 0 <= i < |key| ==> FoldsTo(s[i], key[i])
  }

  /** A key: capitals and underscores. */
  predicate IsKey(key: string) {
    key != "" && forall c <- key :: 'A' <= c <= 'Z' || c == '_'
  }

  /** What stands before the opening quote: blanks, the key, and an equals sign
      between blanks. */
  predicate IsHead(h: string, key: string) {
    var a := RunLength(h, IsTab);
    KeyAt(h[a..], key) &&
    var rest := h[a + |key|..];
    var b := RunLength(rest, IsTab);
    b < |rest| && rest[b] == '=' && All(rest[b + 1..], IsTab)
  }

  /** A flag line as the pattern reads it: its indent, the text between the
      quotes (which may run over line ends), and the length up to the closing quote. */
  datatype Flag = Flag(indent: string, value: string, length: nat)

  /** The rest of a flag line, after its head and the opening quote. */
  function FlagTail(head: string, t: string): (r: Option<Flag>)
    ensures r.Some? ==> |head| < r.value.length <= |head| + 1 + |t|
  {
    var v := RunLength(t, IsValueChar);
    if v == |t| || t[v] != '"' then None
    else Some(Flag(head[..RunLength(head, IsTab)], t[..v], |head| + v + 2))
  }

  function FlagHere(s: string, key: string): (r: Option<Flag>)
    ensures r.Some? ==> 0 < r.value.length <= |s|
  {
    var q := RunLength(s, NotQuote);
    if q == |s| || !IsHead(s[..q], key) then None else FlagTail(s[..q], s[q + 1..])
  }

  predicate LineStart(text: string, i: nat) {
    i == 0 || (i <= |text| && text[i - 1] == '\n')
  }

  function FlagAt(text: string, key: string, i: nat): (r: Option<Flag>)
    ensures r.Some? ==> 0 < r.value.length && i + r.value.length <= |text|
  {
    if i <= |text| && LineStart(text, i) then FlagHere(text[i..], key) else None
  }

  /** The starts of the matches from `from` on, left to right and not overlapping. */
  function Flags(text: string, key: string, from: nat): (r: seq<nat>)
    requires from <= |text|
    ensures forall i <- r :: from <= i <= |text| && FlagAt(text, key, i).Some?
    decreases |text| - from
  {
    if from == |text| then []
    else if FlagAt(text, key, from).Some? then
      [from] + Flags(text, key, from + FlagAt(text, key, from).value.length)
    else Flags(text, key, from + 1)
  }

  predicate IsOff(value: string) {
    var v := Lower(Strip(value));
    v == "" || v == "false" || v == "0" || v == "no" || v == "off"
  }

  /** The result of an edit; the source raises for the first two. */
  datatype Edit = Missing | Duplicated | Edited(text: string, changed: bool)

  function OffLine(indent: string, key: string): string { indent + key + " = \"false\"" }

  function SetFlagFalse(text: string, key: string): Edit {
    var found := Flags(text, key, 0);
    if found == [] then Missing
    else if |found| > 1 then Duplicated
    else
      var flag := FlagAt(text, key, found[0]).value;
      if IsOff(flag.value) then Edited(text, false)
      else Edited(text[..found[0]] + OffLine(flag.indent, key) + text[found[0] + flag.length..], true)
  }

  /** An edit leaves the text as it is. */
  predicate Unedited(text: string, key: string) {
    SetFlagFalse(text, key) == Edited(text, false)
  }
}
