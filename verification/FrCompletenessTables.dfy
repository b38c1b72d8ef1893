/** The tables of a list of lines, exactly: which lines are headers, which lines are
    rows of which header, and which row of an id counts. */
module FrCompletenessTables {
  import opened Text
  import opened FrCompleteness

  // ---------- headers and rows by position ----------

  /** A seen pipe row that is not a separator. */
  predicate CellLine(lines: seq<Option<string>>, i: nat) {
    i < |lines| && lines[i].Some? && PipeRow(lines[i].value) && !IsSeparator(Cells(lines[i].value))
  }

  function CellsAt(lines: seq<Option<string>>, i: nat): seq<string> {
    if i < |lines| && lines[i].Some? then Cells(lines[i].value) else []
  }

  /** A table starts at `h`: the next line that is seen is a separator. */
  predicate HeaderAt(lines: seq<Option<string>>, h: nat) {
    && CellLine(lines, h)
    && var next := Following(lines, h + 1); "|" <= next && IsSeparator(Cells(next))
  }

  predicate KeepsOpen(lines: seq<Option<string>>, k: nat) {
    k < |lines| && (lines[k].Some? ==> PipeRow(lines[k].value) && !HeaderAt(lines, k))
  }

  /** The table that starts at `h` is still open at `i`: every line seen between is a
      pipe row, and no other table starts there. */
  predicate InTable(lines: seq<Option<string>>, h: nat, i: nat) {
    h < i && HeaderAt(lines, h) && forall k | h < k < i :: KeepsOpen(lines, k)
  }

  /** Line `i` is a row of the table that starts at `h`, for this id. */
  predicate IsRowOf(lines: seq<Option<string>>, h: nat, i: nat, id: string) {
    && InTable(lines, h, i) && CellLine(lines, i) && !HeaderAt(lines, i)
    && CellsAt(lines, i) != [] && CellsAt(lines, i)[0] == id
  }

  /** The first such row. */
  predicate FirstRowOf(lines: seq<Option<string>>, h: nat, i: nat, id: string) {
    IsRowOf(lines, h, i, id) && forall k | h < k < i :: !IsRowOf(lines, h, k, id)
  }

  /** The headers among the first `n` lines. */
  function Headers(lines: seq<Option<string>>, n: nat): seq<nat> {
    if n == 0 then [] else Headers(lines, n - 1) + if HeaderAt(lines, n - 1) then [n - 1] else []
  }

  lemma {:induction false} HeadersExact(lines: seq<Option<string>>, n: nat)
    ensures var hs := Headers(lines, n);
            && (forall j | 0 <= j < |hs| :: hs[j] < n && HeaderAt(lines, hs[j]))
            && (forall h | 0 <= h < n && HeaderAt(lines, h) :: h in hs)
            && (forall j, k | 0 <= j < k < |hs| :: hs[j] < hs[k])
  {
    hide HeaderAt;
    if n > 0 { HeadersExact(lines, n - 1); }
  }

  // ---------- what reading gives ----------

  /** The table that starts at `h`, as the first `n` lines give it: for each id the
      first of its rows. */
  ghost predicate IsTableOf(lines: seq<Option<string>>, n: nat, h: nat, t: Table) {
    && t.header == CellsAt(lines, h)
    && forall id, i | 0 <= i < n && FirstRowOf(lines, h, i, id) ::
         id in t.rows && t.rows[id] == Row(|t.header|, CellsAt(lines, i))
  }

  ghost predicate OnlyRowsOf(lines: seq<Option<string>>, n: nat, h: nat, t: Table) {
    forall id <- t.rows :: exists i | 0 <= i < n :: FirstRowOf(lines, h, i, id)
  }

  ghost predicate TablesAt(lines: seq<Option<string>>, n: nat, hs: seq<nat>, found: seq<Table>) {
    && |found| == |hs|
    && forall j | 0 <= j < |hs| :: IsTableOf(lines, n, hs[j], found[j]) && OnlyRowsOf(lines, n, hs[j], found[j])
  }

  ghost predicate Reads(lines: seq<Option<string>>, n: nat, r: Reading) {
    var hs := Headers(lines, n);
    && (r.open <==> hs != [] && InTable(lines, hs[|hs| - 1], n))
    && TablesAt(lines, n, hs, r.found)
  }

  /** A line that is no row of the table leaves it as it is. */
  lemma {:induction false} NotARow(lines: seq<Option<string>>, n: nat, h: nat, t: Table)
    requires IsTableOf(lines, n, h, t) && OnlyRowsOf(lines, n, h, t)
    requires forall id :: !IsRowOf(lines, h, n, id)
    ensures IsTableOf(lines, n + 1, h, t) && OnlyRowsOf(lines, n + 1, h, t)
  {
    hide IsRowOf;
    assert forall id :: !FirstRowOf(lines, h, n, id);
    hide FirstRowOf;
  }

  /** A row of the table is added, unless its id has one. */
  lemma {:induction false} ARow(lines: seq<Option<string>>, n: nat, h: nat, t: Table)
    requires IsTableOf(lines, n, h, t) && OnlyRowsOf(lines, n, h, t)
    requires CellsAt(lines, n) != [] && IsRowOf(lines, h, n, CellsAt(lines, n)[0])
    ensures IsTableOf(lines, n + 1, h, AddRow(t, CellsAt(lines, n)))
    ensures OnlyRowsOf(lines, n + 1, h, AddRow(t, CellsAt(lines, n)))
  {
    hide IsTableOf, OnlyRowsOf, CellsAt, AddRow, HeaderAt, InTable, CellLine;
    var id := CellsAt(lines, n)[0];
    RowIfAny(lines, n, h, t, id);
    RowBelow(lines, h, n, id);
    assert forall other | other != id :: !IsRowOf(lines, h, n, other);
    hide IsRowOf;
    assert FirstRowOf(lines, h, n, id) <==> id !in t.rows;
    assert forall other | other != id :: !FirstRowOf(lines, h, n, other);
    RowAdded(lines, n, h, t);
  }

  lemma {:induction false} RowBelow(lines: seq<Option<string>>, h: nat, n: nat, id: string)
    ensures forall i | IsRowOf(lines, h, i, id) :: h < i
  {
    hide CellsAt, HeaderAt, CellLine;
  }

  lemma {:induction false} RowAdded(lines: seq<Option<string>>, n: nat, h: nat, t: Table)
    requires IsTableOf(lines, n, h, t) && OnlyRowsOf(lines, n, h, t) && CellsAt(lines, n) != []
    requires FirstRowOf(lines, h, n, CellsAt(lines, n)[0]) <==> CellsAt(lines, n)[0] !in t.rows
    requires forall other | other != CellsAt(lines, n)[0] :: !FirstRowOf(lines, h, n, other)
    ensures IsTableOf(lines, n + 1, h, AddRow(t, CellsAt(lines, n)))
    ensures OnlyRowsOf(lines, n + 1, h, AddRow(t, CellsAt(lines, n)))
  {
    hide CellsAt, FirstRowOf;
    var id, after := CellsAt(lines, n)[0], AddRow(t, CellsAt(lines, n));
    forall other, i | 0 <= i < n + 1 && FirstRowOf(lines, h, i, other)
      ensures other in after.rows && after.rows[other] == Row(|t.header|, CellsAt(lines, i))
    {
      if i < n && other == id { assert id in t.rows; }
    }
  }

  /** An id is in the table exactly when it has had a row. */
  lemma {:induction false} RowIfAny(lines: seq<Option<string>>, n: nat, h: nat, t: Table, id: string)
    requires IsTableOf(lines, n, h, t) && OnlyRowsOf(lines, n, h, t)
    ensures id in t.rows <==> exists i | 0 <= i < n :: IsRowOf(lines, h, i, id)
  {
    hide IsRowOf;
    if i :| 0 <= i < n && IsRowOf(lines, h, i, id) {
      var first := FirstFrom(lines, h, i, id);
    }
  }

  lemma {:induction false} FirstFrom(lines: seq<Option<string>>, h: nat, i: nat, id: string) returns (first: nat)
    requires IsRowOf(lines, h, i, id)
    ensures first <= i && FirstRowOf(lines, h, first, id)
  {
    hide IsRowOf;
    if k: nat :| h < k < i && IsRowOf(lines, h, k, id) {
      first := FirstFrom(lines, h, k, id);
    } else {
      first := i;
    }
  }

  /** The table is open after one more line exactly when it was and the line keeps it
      open, or the line starts it. */
  lemma {:induction false} OpenNext(lines: seq<Option<string>>, h: nat, n: nat)
    requires h <= n && HeaderAt(lines, h)
    ensures InTable(lines, h, n + 1) <==> h == n || (InTable(lines, h, n) && KeepsOpen(lines, n))
  {
    hide HeaderAt, KeepsOpen;
  }

  /** An earlier table is closed by the next header. */
  lemma {:induction false} ClosedByNext(lines: seq<Option<string>>, h: nat, later: nat, n: nat)
    requires h < later < n && HeaderAt(lines, later)
    ensures !InTable(lines, h, n)
  {
    assert !KeepsOpen(lines, later) by { assert CellLine(lines, later); }
    hide KeepsOpen, HeaderAt;
  }

  lemma {:induction false} ReadsNothing(lines: seq<Option<string>>)
    ensures Reads(lines, 0, ReadTables(lines, 0))
  {
  }

  /** Reading the first `n` lines gives the tables of their headers, in order, each
      with the first row of every id that has one, and no others. */
  lemma {:induction false} TablesExact(lines: seq<Option<string>>, n: nat)
    requires n <= |lines|
    ensures Reads(lines, n, ReadTables(lines, n))
  {
    hide Reads, ReadLine, Following, HeaderAt, CellLine;
    if n == 0 {
      ReadsNothing(lines);
    } else {
      TablesExact(lines, n - 1);
      var r := ReadTables(lines, n - 1);
      if lines[n - 1] == None {
        HiddenLineRead(lines, n - 1, r);
      } else if CellLine(lines, n - 1) {
        if HeaderAt(lines, n - 1) { HeaderRead(lines, n - 1, r); } else { RowRead(lines, n - 1, r); }
      } else {
        OtherLineRead(lines, n - 1, r);
      }
    }
  }

  lemma {:induction false} NoRowsHere(lines: seq<Option<string>>, n: nat, r: Reading)
    requires Reads(lines, n, r)
    requires forall h, id :: !IsRowOf(lines, h, n, id)
    ensures TablesAt(lines, n + 1, Headers(lines, n), r.found)
  {
    hide HeaderAt, IsRowOf, IsTableOf, OnlyRowsOf, InTable, Headers;
    var hs := Headers(lines, n);
    forall j | 0 <= j < |hs|
      ensures IsTableOf(lines, n + 1, hs[j], r.found[j]) && OnlyRowsOf(lines, n + 1, hs[j], r.found[j])
    {
      NotARow(lines, n, hs[j], r.found[j]);
    }
  }

  lemma {:induction false} LastHeader(lines: seq<Option<string>>, n: nat)
    ensures var hs := Headers(lines, n); hs != [] ==> hs[|hs| - 1] < n && HeaderAt(lines, hs[|hs| - 1])
  {
    HeadersExact(lines, n);
    hide Headers, HeaderAt;
  }

  /** The header list grows by a header only, and the last table is open as before
      unless the line closes it. */
  lemma {:induction false} SameHeaders(lines: seq<Option<string>>, n: nat)
    requires !HeaderAt(lines, n)
    ensures var hs := Headers(lines, n);
            && Headers(lines, n + 1) == hs
            && (hs != [] ==> (InTable(lines, hs[|hs| - 1], n + 1) <==> InTable(lines, hs[|hs| - 1], n) && KeepsOpen(lines, n)))
  {
    LastHeader(lines, n);
    hide HeaderAt, InTable, KeepsOpen;
    var hs := Headers(lines, n);
    if hs != [] { OpenNext(lines, hs[|hs| - 1], n); }
  }

  /** What one line does to a reading, by its kind. */
  lemma {:induction false} LineKinds(lines: seq<Option<string>>, n: nat, r: Reading)
    requires n < |lines| && lines[n].Some?
    ensures var after := ReadLine(r, lines[n].value, Following(lines, n + 1));
            && (!CellLine(lines, n) ==> after.found == r.found && (after.open <==> r.open && PipeRow(lines[n].value)))
            && (HeaderAt(lines, n) ==> after == Reading(r.found + [Table(CellsAt(lines, n), map[])], true))
            && (CellLine(lines, n) && !HeaderAt(lines, n) ==>
                  after == RowGiven(lines, n, r))
  {
    hide PipeRow, Cells, IsSeparator, Following, AddRow;
  }

  lemma {:induction false} NoRowOf(lines: seq<Option<string>>, n: nat)
    requires !CellLine(lines, n) || HeaderAt(lines, n)
    ensures forall h, id :: !IsRowOf(lines, h, n, id)
  {
    hide CellLine, HeaderAt, InTable, CellsAt;
  }

  lemma {:induction false} HiddenLine(lines: seq<Option<string>>, n: nat)
    requires n < |lines| && lines[n] == None
    ensures !CellLine(lines, n) && !HeaderAt(lines, n) && KeepsOpen(lines, n)
  {
  }

  lemma {:induction false} HiddenLineRead(lines: seq<Option<string>>, n: nat, r: Reading)
    requires n < |lines| && Reads(lines, n, r) && lines[n] == None
    ensures Reads(lines, n + 1, r)
  {
    hide IsRowOf, HeaderAt, CellLine, KeepsOpen, InTable, TablesAt, Headers;
    HiddenLine(lines, n);
    NoRowOf(lines, n);
    SameHeaders(lines, n);
    NoRowsHere(lines, n, r);
  }

  /** A line that is no pipe row closes the table; a separator row does nothing. */
  lemma {:induction false} OtherLineRead(lines: seq<Option<string>>, n: nat, r: Reading)
    requires n < |lines| && Reads(lines, n, r) && lines[n].Some? && !CellLine(lines, n)
    ensures Reads(lines, n + 1, ReadLine(r, lines[n].value, Following(lines, n + 1)))
  {
    hide IsRowOf, HeaderAt, CellLine, KeepsOpen, InTable, TablesAt, PipeRow, ReadLine, Following, Headers;
    KeepsIfPipe(lines, n);
    LineKinds(lines, n, r);
    NoRowOf(lines, n);
    SameHeaders(lines, n);
    NoRowsHere(lines, n, r);
  }

  lemma {:induction false} KeepsIfPipe(lines: seq<Option<string>>, n: nat)
    requires n < |lines| && lines[n].Some? && !CellLine(lines, n)
    ensures !HeaderAt(lines, n) && (KeepsOpen(lines, n) <==> PipeRow(lines[n].value))
  {
    hide PipeRow, Cells, IsSeparator, Following;
  }

  lemma {:induction false} NewTable(lines: seq<Option<string>>, n: nat)
    ensures IsTableOf(lines, n + 1, n, Table(CellsAt(lines, n), map[]))
    ensures OnlyRowsOf(lines, n + 1, n, Table(CellsAt(lines, n), map[]))
  {
    hide CellsAt, IsRowOf;
    forall id, i | 0 <= i < n + 1 ensures !FirstRowOf(lines, n, i, id) { RowBelow(lines, n, n, id); }
    hide FirstRowOf;
  }

  lemma {:induction false} HeaderRead(lines: seq<Option<string>>, n: nat, r: Reading)
    requires n < |lines| && Reads(lines, n, r) && lines[n].Some? && HeaderAt(lines, n)
    ensures Reads(lines, n + 1, ReadLine(r, lines[n].value, Following(lines, n + 1)))
  {
    hide IsRowOf, HeaderAt, CellLine, InTable, TablesAt, ReadLine, CellsAt, Following, Headers;
    LineKinds(lines, n, r);
    NoRowOf(lines, n);
    OpenNext(lines, n, n);
    NoRowsHere(lines, n, r);
    OneMoreTable(lines, n, Headers(lines, n), r.found);
    OneMoreHeader(lines, n);
  }

  lemma {:induction false} OneMoreHeader(lines: seq<Option<string>>, n: nat)
    requires HeaderAt(lines, n)
    ensures Headers(lines, n + 1) == Headers(lines, n) + [n]
  {
    hide HeaderAt;
  }

  lemma {:induction false} OneMoreTable(lines: seq<Option<string>>, n: nat, hs: seq<nat>, found: seq<Table>)
    requires TablesAt(lines, n + 1, hs, found)
    ensures TablesAt(lines, n + 1, hs + [n], found + [Table(CellsAt(lines, n), map[])])
  {
    NewTable(lines, n);
    hide IsTableOf, OnlyRowsOf, CellsAt;
  }

  lemma {:induction false} RowKeepsOpen(lines: seq<Option<string>>, n: nat)
    requires CellLine(lines, n) && !HeaderAt(lines, n)
    ensures KeepsOpen(lines, n)
  {
  }

  /** The reading after a row of cells that starts no table. */
  function RowGiven(lines: seq<Option<string>>, n: nat, r: Reading): Reading {
    if r.open && r.found != [] && CellsAt(lines, n) != [] then
      var k := |r.found| - 1; r.(found := r.found[k := AddRow(r.found[k], CellsAt(lines, n))])
    else r
  }

  /** A row of cells that starts no table goes to the last table, if that is open. */
  lemma {:induction false} RowRead(lines: seq<Option<string>>, n: nat, r: Reading)
    requires n < |lines| && Reads(lines, n, r) && lines[n].Some? && CellLine(lines, n) && !HeaderAt(lines, n)
    ensures Reads(lines, n + 1, ReadLine(r, lines[n].value, Following(lines, n + 1)))
  {
    hide IsRowOf, HeaderAt, CellLine, KeepsOpen, InTable, ReadLine, CellsAt, Following, AddRow, Headers, IsTableOf, OnlyRowsOf;
    RowKeepsOpen(lines, n);
    LineKinds(lines, n, r);
    SameHeaders(lines, n);
    assert ReadLine(r, lines[n].value, Following(lines, n + 1)) == RowGiven(lines, n, r);
    RowGivenReads(lines, n, r);
  }

  lemma {:induction false} RowGivenReads(lines: seq<Option<string>>, n: nat, r: Reading)
    requires Reads(lines, n, r) && CellLine(lines, n) && !HeaderAt(lines, n) && KeepsOpen(lines, n)
    ensures Reads(lines, n + 1, RowGiven(lines, n, r))
  {
    hide IsRowOf, HeaderAt, CellLine, KeepsOpen, InTable, CellsAt, AddRow, Headers, IsTableOf, OnlyRowsOf;
    SameHeaders(lines, n);
    if Headers(lines, n) != [] {
      LastGetsRow(lines, n, r);
      hide TablesAt;
      assert TablesAt(lines, n + 1, Headers(lines, n), RowGiven(lines, n, r).found);
    }
  }

  lemma {:induction false} LastGetsRow(lines: seq<Option<string>>, n: nat, r: Reading)
    requires Reads(lines, n, r) && CellLine(lines, n) && !HeaderAt(lines, n) && Headers(lines, n) != []
    ensures TablesAt(lines, n + 1, Headers(lines, n), RowGiven(lines, n, r).found)
  {
    hide IsRowOf, HeaderAt, CellLine, KeepsOpen, InTable, IsTableOf, OnlyRowsOf, CellsAt, AddRow, Headers;
    var hs, cells := Headers(lines, n), CellsAt(lines, n);
    var k := |hs| - 1;
    var added := r.open && cells != [];
    var found := if added then r.found[k := AddRow(r.found[k], cells)] else r.found;
    forall j | 0 <= j < |hs|
      ensures IsTableOf(lines, n + 1, hs[j], found[j]) && OnlyRowsOf(lines, n + 1, hs[j], found[j])
    {
      forall id ensures IsRowOf(lines, hs[j], n, id) <==> added && j == k && id == cells[0] { RowHere(lines, n, j, id); }
      if added && j == k { ARow(lines, n, hs[j], r.found[j]); } else { NotARow(lines, n, hs[j], r.found[j]); }
    }
  }

  lemma {:induction false} RowHere(lines: seq<Option<string>>, n: nat, j: nat, id: string)
    requires j < |Headers(lines, n)| && CellLine(lines, n) && !HeaderAt(lines, n)
    ensures var hs := Headers(lines, n);
            IsRowOf(lines, hs[j], n, id) <==>
              && CellsAt(lines, n) != [] && CellsAt(lines, n)[0] == id
              && j == |hs| - 1 && InTable(lines, hs[|hs| - 1], n)
  {
    HeadersExact(lines, n);
    hide HeaderAt, CellLine, CellsAt, InTable, Headers;
    var hs := Headers(lines, n);
    if j < |hs| - 1 { ClosedByNext(lines, hs[j], hs[|hs| - 1], n); }
  }

  // ---------- the evidence table ----------

  /** The first table whose first header cell reads `Req ID` starts at `h`. */
  predicate EvidenceAt(lines: seq<Option<string>>, h: nat, lower: string -> string) {
    && HeaderAt(lines, h) && IsEvidenceHeader(CellsAt(lines, h), lower)
    && forall k | 0 <= k < h && HeaderAt(lines, k) :: !IsEvidenceHeader(CellsAt(lines, k), lower)
  }

  predicate IsEvidenceHeader(cells: seq<string>, lower: string -> string) {
    cells != [] && lower(Strip(cells[0])) == "req id"
  }

  /** Line `i` is a whole row of the evidence table that starts at `h`: the first row
      of the id there, with as many cells as the header and none empty. */
  predicate WholeRowAt(lines: seq<Option<string>>, h: nat, i: nat, id: string, lower: string -> string) {
    && EvidenceAt(lines, h, lower) && FirstRowOf(lines, h, i, id)
    && |CellsAt(lines, i)| == |CellsAt(lines, h)| && forall cell <- CellsAt(lines, i) :: cell != ""
  }

  /** The requirement has a row that a reader sees. */
  predicate ShowsRow(lines: seq<Option<string>>, id: string, lower: string -> string) {
    exists h, i | 0 <= h < i < |lines| :: WholeRowAt(lines, h, i, id, lower)
  }

  function EvidenceOf(lines: seq<Option<string>>, lower: string -> string): Option<Table> {
    FirstEvidence(ReadTables(lines, |lines|).found, lower)
  }

  lemma {:induction false} FirstEvidenceExact(found: seq<Table>, lower: string -> string, j: nat)
    requires j < |found| && IsEvidence(found[j], lower) && forall k | 0 <= k < j :: !IsEvidence(found[k], lower)
    ensures FirstEvidence(found, lower) == Some(found[j])
  {
    if j > 0 { FirstEvidenceExact(found[1..], lower, j - 1); }
  }

  lemma {:induction false} NoEvidence(found: seq<Table>, lower: string -> string)
    requires forall k | 0 <= k < |found| :: !IsEvidence(found[k], lower)
    ensures FirstEvidence(found, lower) == None
  {
    if found != [] { NoEvidence(found[1..], lower); }
  }

  /** The tables found are evidence where their headers are. */
  lemma {:induction false} FoundAtHeaders(lines: seq<Option<string>>, lower: string -> string)
    ensures var hs, found := Headers(lines, |lines|), ReadTables(lines, |lines|).found;
            && TablesAt(lines, |lines|, hs, found)
            && forall j | 0 <= j < |hs| :: IsEvidence(found[j], lower) <==> IsEvidenceHeader(CellsAt(lines, hs[j]), lower)
  {
    TablesExact(lines, |lines|);
    hide HeaderAt, CellsAt, InTable, Headers, ReadTables, OnlyRowsOf, FirstRowOf;
    var hs, found := Headers(lines, |lines|), ReadTables(lines, |lines|).found;
    forall j | 0 <= j < |hs| ensures IsEvidence(found[j], lower) <==> IsEvidenceHeader(CellsAt(lines, hs[j]), lower) {
      assert IsTableOf(lines, |lines|, hs[j], found[j]);
    }
  }

  /** The evidence table starts at its header and holds the first row of each id. */
  lemma {:induction false} EvidenceStarts(lines: seq<Option<string>>, lower: string -> string, h: nat)
    requires EvidenceAt(lines, h, lower)
    ensures EvidenceOf(lines, lower).Some?
    ensures IsTableOf(lines, |lines|, h, EvidenceOf(lines, lower).value)
    ensures OnlyRowsOf(lines, |lines|, h, EvidenceOf(lines, lower).value)
  {
    FoundAtHeaders(lines, lower);
    HeadersExact(lines, |lines|);
    HeaderInLines(lines, h);
    hide HeaderAt, CellsAt, FirstEvidence, Headers, ReadTables, IsEvidenceHeader, IsTableOf, OnlyRowsOf, IsEvidence;
    var hs, found := Headers(lines, |lines|), ReadTables(lines, |lines|).found;
    var j :| 0 <= j < |hs| && hs[j] == h;
    FirstEvidenceExact(found, lower, j);
  }

  lemma {:induction false} EvidenceExact(lines: seq<Option<string>>, lower: string -> string)
    ensures EvidenceOf(lines, lower).Some? <==> exists h: nat :: EvidenceAt(lines, h, lower)
  {
    FoundAtHeaders(lines, lower);
    HeadersExact(lines, |lines|);
    hide HeaderAt, CellsAt, FirstEvidence, Headers, ReadTables, IsEvidenceHeader, IsTableOf, OnlyRowsOf, IsEvidence, EvidenceAt;
    var hs, found := Headers(lines, |lines|), ReadTables(lines, |lines|).found;
    if EvidenceOf(lines, lower).Some? {
      if forall k | 0 <= k < |found| :: !IsEvidence(found[k], lower) { NoEvidence(found, lower); }
      var k :| 0 <= k < |found| && IsEvidence(found[k], lower);
      var h := FirstHeader(lines, hs[k], lower);
    }
    if h: nat :| EvidenceAt(lines, h, lower) { EvidenceStarts(lines, lower, h); }
  }

  lemma {:induction false} HeaderInLines(lines: seq<Option<string>>, h: nat)
    requires HeaderAt(lines, h)
    ensures h < |lines|
  {
  }

  lemma {:induction false} FirstHeader(lines: seq<Option<string>>, k: nat, lower: string -> string) returns (h: nat)
    requires HeaderAt(lines, k) && IsEvidenceHeader(CellsAt(lines, k), lower)
    ensures EvidenceAt(lines, h, lower)
  {
    hide HeaderAt, IsEvidenceHeader, CellsAt;
    if m: nat :| m < k && HeaderAt(lines, m) && IsEvidenceHeader(CellsAt(lines, m), lower) {
      h := FirstHeader(lines, m, lower);
    } else {
      h := k;
    }
  }

  /** The table has a whole row for the id if and only if a reader sees one. */
  lemma {:induction false} WholeRowExact(lines: seq<Option<string>>, id: string, lower: string -> string)
    ensures EvidenceOf(lines, lower).Some? && HasWholeRow(EvidenceOf(lines, lower).value, id) <==> ShowsRow(lines, id, lower)
  {
    EvidenceExact(lines, lower);
    hide EvidenceOf, EvidenceAt, CellsAt, FirstRowOf;
    if EvidenceOf(lines, lower).Some? && HasWholeRow(EvidenceOf(lines, lower).value, id) {
      var h: nat :| EvidenceAt(lines, h, lower);
      EvidenceStarts(lines, lower, h);
      var i :| 0 <= i < |lines| && FirstRowOf(lines, h, i, id);
      RowIsBelow(lines, h, i, id);
      assert WholeRowAt(lines, h, i, id, lower);
    } else if h, i :| 0 <= h < i < |lines| && WholeRowAt(lines, h, i, id, lower) {
      EvidenceStarts(lines, lower, h);
    }
  }

  lemma {:induction false} RowIsBelow(lines: seq<Option<string>>, h: nat, i: nat, id: string)
    requires FirstRowOf(lines, h, i, id)
    ensures h < i
  {
  }
}
