/** Reference inversion: cells that locate values without holding them, and the mint-time grouping. */
module Inversion {
  import opened Contract
  import Dicts
  import Locators
  import Text

  // ---- minting ----

  type Field = (string, TypeDescriptor)

  function MintCell(
    cellIdOf: string -> CellId, source: string, rowKey: RowKey, field: Field, policyId: string): Result<Cell>
  {
    match Locators.MakeLocator(source, rowKey, field.0)
    case Err(e) => Err(e)
    case Ok(locator) =>
      if field.1.ontologyNode == "" then
        Err(ValueError)
      else
        Ok(Cell(cellIdOf(locator), Reference(source, locator, source), field.1, policyId, None))
  }

  function MintCells(
    cellIdOf: string -> CellId, source: string, rowKey: RowKey, fields: seq<Field>, policyId: string): Result<seq<Cell>>
  {
    if fields == [] then
      Ok([])
    else
      match MintCells(cellIdOf, source, rowKey, fields[..|fields| - 1], policyId)
      case Err(e) => Err(e)
      case Ok(cells) =>
        match MintCell(cellIdOf, source, rowKey, fields[|fields| - 1], policyId)
        case Err(e) => Err(e)
        case Ok(cell) => Ok(cells + [cell])
  }

  lemma {:induction false} MintCellsStuck(
    cellIdOf: string -> CellId, source: string, rowKey: RowKey, fields: seq<Field>, policyId: string, n: nat)
    requires n <= |fields| && MintCells(cellIdOf, source, rowKey, fields[..n], policyId).Err?
    ensures MintCells(cellIdOf, source, rowKey, fields, policyId) ==
            MintCells(cellIdOf, source, rowKey, fields[..n], policyId)
    decreases |fields|
  {
    if n == |fields| {
      assert fields[..n] == fields;
    } else {
      assert fields[..|fields| - 1][..n] == fields[..n];
      MintCellsStuck(cellIdOf, source, rowKey, fields[..|fields| - 1], policyId, n);
    }
  }

  method BuildCells(
    cellIdOf: string -> CellId, source: string, rowKey: RowKey, fields: seq<Field>, policyId: string)
    returns (r: Result<seq<Cell>>)
    ensures r == MintCells(cellIdOf, source, rowKey, fields, policyId)
  {
    var cells := [];
    for i := 0 to |fields|
      invariant MintCells(cellIdOf, source, rowKey, fields[..i], policyId) == Ok(cells)
    {
      assert fields[..i + 1][..i] == fields[..i];
      var minted := MintCell(cellIdOf, source, rowKey, fields[i], policyId);
      if minted.Err? {
        MintCellsStuck(cellIdOf, source, rowKey, fields, policyId, i + 1);
        return Err(minted.error);
      }
      cells := cells + [minted.value];
    }
    assert fields[..|fields|] == fields;
    r := Ok(cells);
  }

  /** A minted cell holds no value, and its locator tells its source, row and field back. */
  lemma MintedCellLocates(cellIdOf: string -> CellId, source: string, rowKey: RowKey, field: Field, policyId: string)
    requires MintCell(cellIdOf, source, rowKey, field, policyId).Ok?
    ensures var c := MintCell(cellIdOf, source, rowKey, field, policyId).value;
            && c.materialised == None && c.typ == field.1 && c.policyId == policyId
            && c.cellId == cellIdOf(c.ref.locator) && c.ref == Reference(source, c.ref.locator, source)
            && Locators.MakeLocator(source, rowKey, field.0) == Ok(c.ref.locator)
            && Locators.ParseLocator(c.ref.locator) == Ok((source, rowKey, field.0))
  {
    Locators.RoundTrip(source, rowKey, field.0);
  }

  /** A cell is minted exactly when no part of its place is empty and it has a node. */
  lemma MintsExactly(cellIdOf: string -> CellId, source: string, rowKey: RowKey, field: Field, policyId: string)
    ensures var r := MintCell(cellIdOf, source, rowKey, field, policyId);
            && (r.Ok? <==> source != "" && rowKey != "" && field.0 != "" && field.1.ontologyNode != "")
            && (r.Err? ==> r.error == ValueError)
  {
    Locators.RoundTrip(source, rowKey, field.0);
  }

  /** A list of fields is minted exactly when each of them is, one cell for each, in order. */
  lemma {:induction false} MintsAllExactly(
    cellIdOf: string -> CellId, source: string, rowKey: RowKey, fields: seq<Field>, policyId: string)
    ensures var r := MintCells(cellIdOf, source, rowKey, fields, policyId);
            && (r.Ok? <==> forall f :: f in fields ==> MintCell(cellIdOf, source, rowKey, f, policyId).Ok?)
            && (r.Err? ==> r.error == ValueError)
            && (r.Ok? ==>
                  && |r.value| == |fields|
                  && forall i :: 0 <= i < |fields| ==>
                       MintCell(cellIdOf, source, rowKey, fields[i], policyId) == Ok(r.value[i]))
  {
    if fields != [] {
      var n := |fields| - 1;
      MintsAllExactly(cellIdOf, source, rowKey, fields[..n], policyId);
      MintsExactly(cellIdOf, source, rowKey, fields[n], policyId);
      assert fields == fields[..n] + [fields[n]];
    }
  }

  // ---- seed grouping ----

  function NormaliseEmail(lower: string -> string, email: string): string {
    lower(Text.Trim(email))
  }

  type Row = (string, RowKey)

  datatype EmailRecord = EmailRecord(source: string, rowKey: RowKey, email: string)

  function RowOf(r: EmailRecord): Row {
    (r.source, r.rowKey)
  }

  /** The rows that share each non-blank normalised email, in order of first appearance. */
  function ByEmail(lower: string -> string, records: seq<EmailRecord>): (d: Dicts.Dict<seq<Row>>)
    ensures Dicts.IsDict(d)
  {
    if records == [] then
      Dicts.Empty()
    else
      var last := records[|records| - 1];
      var (d, e) := (ByEmail(lower, records[..|records| - 1]), NormaliseEmail(lower, last.email));
      if e == "" then d else Dicts.Set(d, e, (if e in d.at then d.at[e] else []) + [RowOf(last)])
  }

  function GroupId(digest: string -> string, email: string): PrincipalId {
    "grp_" + digest(email)
  }

  type Groups = map<Row, PrincipalId>

  function Assign(groups: Groups, rows: seq<Row>, id: PrincipalId): Groups {
    if rows == [] then groups else Assign(groups, rows[..|rows| - 1], id)[rows[|rows| - 1] := id]
  }

  function AssignAll(digest: string -> string, d: Dicts.Dict<seq<Row>>, n: nat): Groups
    requires Dicts.IsDict(d) && n <= |d.keys|
  {
    if n == 0 then
      map[]
    else
      Assign(AssignAll(digest, d, n - 1), d.at[d.keys[n - 1]], GroupId(digest, d.keys[n - 1]))
  }

  function Seeded(lower: string -> string, digest: string -> string, records: seq<EmailRecord>): Groups {
    var d := ByEmail(lower, records);
    AssignAll(digest, d, |d.keys|)
  }

  method SeedGrouping(
    lower: string -> string, digest: string -> string, records: seq<EmailRecord>) returns (groups: Groups)
    ensures groups == Seeded(lower, digest, records)
  {
    var byEmail := CollectByEmail(lower, records);
    groups := map[];
    for n := 0 to |byEmail.keys|
      invariant groups == AssignAll(digest, byEmail, n)
    {
      groups := AssignMembers(groups, byEmail.at[byEmail.keys[n]], GroupId(digest, byEmail.keys[n]));
    }
  }

  method CollectByEmail(lower: string -> string, records: seq<EmailRecord>) returns (byEmail: Dicts.Dict<seq<Row>>)
    ensures byEmail == ByEmail(lower, records)
  {
    byEmail := Dicts.Empty();
    for i := 0 to |records|
      invariant byEmail == ByEmail(lower, records[..i])
    {
      assert records[..i + 1][..i] == records[..i];
      var e := NormaliseEmail(lower, records[i].email);
      if e != "" {
        byEmail := Dicts.Set(byEmail, e, (if e in byEmail.at then byEmail.at[e] else []) + [RowOf(records[i])]);
      }
    }
    assert records[..|records|] == records;
  }

  method AssignMembers(groups0: Groups, members: seq<Row>, id: PrincipalId) returns (groups: Groups)
    ensures groups == Assign(groups0, members, id)
  {
    groups := groups0;
    for j := 0 to |members|
      invariant groups == Assign(groups0, members[..j], id)
    {
      assert members[..j + 1][..j] == members[..j];
      groups := groups[members[j] := id];
    }
    assert members[..|members|] == members;
  }

  // ---- what normalising is ----

  /** `e` is the lower case of `email` without the white space around it. */
  ghost predicate Normalises(lower: string -> string, email: string, e: string) {
    exists p, u, q :: NormalisesAs(lower, email, p, u, q, e)
  }

  ghost predicate NormalisesAs(lower: string -> string, email: string, p: string, u: string, q: string, e: string) {
    email == p + u + q && Text.IsBlank(p) && Text.IsBlank(q) && Text.IsTrimmed(u) && e == lower(u)
  }

  lemma NormalisesExactly(lower: string -> string, email: string, e: string)
    ensures Normalises(lower, email, e) <==> NormaliseEmail(lower, email) == e
  {
    if Normalises(lower, email, e) {
      var p, u, q :| NormalisesAs(lower, email, p, u, q, e);
      Text.TrimExactly(p, u, q);
    }
    if NormaliseEmail(lower, email) == e {
      var p, q := Text.TrimParts(email);
      assert NormalisesAs(lower, email, p, Text.Trim(email), q, e);
    }
  }

  // ---- what the seed groups ----

  ghost predicate DistinctRecords(records: seq<EmailRecord>) {
    forall i, j :: 0 <= i < j < |records| ==> RowOf(records[i]) != RowOf(records[j])
  }

  /** The record at `i` has the non-blank normalised email `e`. */
  ghost predicate HasEmail(lower: string -> string, records: seq<EmailRecord>, i: nat, e: string) {
    i < |records| && e != "" && NormaliseEmail(lower, records[i].email) == e
  }

  ghost predicate ListedUnder(d: Dicts.Dict<seq<Row>>, e: string, row: Row) {
    e in d.at && row in d.at[e]
  }

  lemma ByEmailNext(lower: string -> string, records: seq<EmailRecord>, e: string, row: Row)
    requires records != []
    ensures var n := |records| - 1;
            ListedUnder(ByEmail(lower, records), e, row) <==>
            ListedUnder(ByEmail(lower, records[..n]), e, row)
              || (HasEmail(lower, records, n, e) && RowOf(records[n]) == row)
  {
    var n := |records| - 1;
    var d := ByEmail(lower, records[..n]);
    if HasEmail(lower, records, n, e) {
      assert ByEmail(lower, records).at[e] == (if e in d.at then d.at[e] else []) + [RowOf(records[n])];
    }
  }

  lemma {:induction false} ByEmailExact(lower: string -> string, records: seq<EmailRecord>, e: string, row: Row)
    ensures ListedUnder(ByEmail(lower, records), e, row) <==>
            exists i: nat :: HasEmail(lower, records, i, e) && RowOf(records[i]) == row
  {
    if records != [] {
      var before := records[..|records| - 1];
      ByEmailNext(lower, records, e, row);
      ByEmailExact(lower, before, e, row);
      HasEmailNext(lower, records, e, row);
    }
  }

  lemma HasEmailNext(lower: string -> string, records: seq<EmailRecord>, e: string, row: Row)
    requires records != []
    ensures var (before, n) := (records[..|records| - 1], |records| - 1);
            (exists i: nat :: HasEmail(lower, records, i, e) && RowOf(records[i]) == row) <==>
            (exists i: nat :: HasEmail(lower, before, i, e) && RowOf(before[i]) == row)
            || (HasEmail(lower, records, n, e) && RowOf(records[n]) == row)
  {
    var (before, n) := (records[..|records| - 1], |records| - 1);
    if exists i: nat :: HasEmail(lower, before, i, e) && RowOf(before[i]) == row {
      var i: nat :| HasEmail(lower, before, i, e) && RowOf(before[i]) == row;
      assert HasEmail(lower, records, i, e) && records[i] == before[i];
    }
    if exists i: nat :: HasEmail(lower, records, i, e) && RowOf(records[i]) == row {
      var i: nat :| HasEmail(lower, records, i, e) && RowOf(records[i]) == row;
      assert i < n ==> HasEmail(lower, before, i, e) && records[i] == before[i];
    }
  }

  lemma {:induction false} AssignExact(groups: Groups, rows: seq<Row>, id: PrincipalId, row: Row)
    ensures row in Assign(groups, rows, id) <==> row in groups || row in rows
    ensures row in Assign(groups, rows, id) ==>
              Assign(groups, rows, id)[row] == if row in rows then id else groups[row]
  {
    if rows != [] {
      AssignExact(groups, rows[..|rows| - 1], id, row);
      assert rows == rows[..|rows| - 1] + [rows[|rows| - 1]];
    }
  }

  /** Among the first `n` emails, `row` is listed only under `e`. */
  ghost predicate OnlyUnder(d: Dicts.Dict<seq<Row>>, row: Row, e: string)
    requires Dicts.IsDict(d)
  {
    forall k :: k in d.at && row in d.at[k] ==> k == e
  }

  lemma {:induction false} AssignAllExact(
    digest: string -> string, d: Dicts.Dict<seq<Row>>, n: nat, row: Row, e: string)
    requires Dicts.IsDict(d) && n <= |d.keys| && OnlyUnder(d, row, e)
    ensures var groups := AssignAll(digest, d, n);
            && (row in groups <==> e in d.keys[..n] && row in d.at[e])
            && (row in groups ==> groups[row] == GroupId(digest, e))
  {
    if n > 0 {
      var k := d.keys[n - 1];
      AssignAllExact(digest, d, n - 1, row, e);
      AssignExact(AssignAll(digest, d, n - 1), d.at[k], GroupId(digest, k), row);
      assert d.keys[..n] == d.keys[..n - 1] + [k];
      assert k in d.at;
    }
  }

  /** A row is grouped exactly when its email is not blank, and then by its normalised email alone. */
  lemma SeededExactly(lower: string -> string, digest: string -> string, records: seq<EmailRecord>, i: nat)
    requires DistinctRecords(records) && i < |records|
    ensures var (groups, e) := (Seeded(lower, digest, records), NormaliseEmail(lower, records[i].email));
            && (RowOf(records[i]) in groups <==> e != "")
            && (e != "" ==> groups[RowOf(records[i])] == "grp_" + digest(e))
  {
    var (d, row, e) :=
      (ByEmail(lower, records), RowOf(records[i]), NormaliseEmail(lower, records[i].email));
    forall k | k in d.at && row in d.at[k]
      ensures k == e
    {
      ByEmailExact(lower, records, k, row);
    }
    ByEmailExact(lower, records, e, row);
    assert e != "" ==> HasEmail(lower, records, i, e);
    AssignAllExact(digest, d, |d.keys|, row, e);
    assert d.keys[..|d.keys|] == d.keys;
  }

  /** Two rows get one principal exactly when they share a non-blank normalised email. */
  lemma SharedPrincipalExactly(
    lower: string -> string, digest: string -> string, records: seq<EmailRecord>, i: nat, j: nat)
    requires DistinctRecords(records) && i < |records| && j < |records|
    requires forall p, q :: 0 <= p < |records| && 0 <= q < |records| ==>
               var (a, b) := (NormaliseEmail(lower, records[p].email), NormaliseEmail(lower, records[q].email));
               digest(a) == digest(b) ==> a == b
    ensures var (groups, a, b) := (Seeded(lower, digest, records), RowOf(records[i]), RowOf(records[j]));
            var (ea, eb) := (NormaliseEmail(lower, records[i].email), NormaliseEmail(lower, records[j].email));
            (a in groups && b in groups && groups[a] == groups[b]) <==> ea != "" && ea == eb
  {
    SeededExactly(lower, digest, records, i);
    SeededExactly(lower, digest, records, j);
    var (ea, eb) := (NormaliseEmail(lower, records[i].email), NormaliseEmail(lower, records[j].email));
    assert GroupId(digest, ea)[4..] == digest(ea) && GroupId(digest, eb)[4..] == digest(eb);
  }

  /** Different emails have different digests. */
  ghost predicate NoCollision(lower: string -> string, digest: string -> string, records: seq<EmailRecord>) {
    forall a, b, ea, eb :: a in records && b in records && Normalises(lower, a.email, ea)
      && Normalises(lower, b.email, eb) && digest(ea) == digest(eb)
      ==> ea == eb
  }

  /** Two rows get one principal exactly when their emails are one and not empty, but for case and for the
      white space around them. */
  lemma SharedPrincipalByText(
    lower: string -> string, digest: string -> string, records: seq<EmailRecord>, i: nat, j: nat,
    p: string, u: string, q: string, p': string, v: string, q': string)
    requires DistinctRecords(records) && i < |records| && j < |records|
    requires NoCollision(lower, digest, records)
    requires records[i].email == p + u + q && records[j].email == p' + v + q'
    requires Text.IsBlank(p) && Text.IsBlank(q) && Text.IsTrimmed(u)
    requires Text.IsBlank(p') && Text.IsBlank(q') && Text.IsTrimmed(v)
    ensures var (groups, a, b) := (Seeded(lower, digest, records), RowOf(records[i]), RowOf(records[j]));
            (a in groups && b in groups && groups[a] == groups[b]) <==> lower(u) == lower(v) != ""
  {
    Text.TrimExactly(p, u, q);
    Text.TrimExactly(p', v, q');
    forall a, b | a in records && b in records
      ensures var (ea, eb) := (NormaliseEmail(lower, a.email), NormaliseEmail(lower, b.email));
              digest(ea) == digest(eb) ==> ea == eb
    {
      NormalisesExactly(lower, a.email, NormaliseEmail(lower, a.email));
      NormalisesExactly(lower, b.email, NormaliseEmail(lower, b.email));
    }
    SharedPrincipalExactly(lower, digest, records, i, j);
  }
}
