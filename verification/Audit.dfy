/** The append-only audit log: each row's hash covers its entry and the hash of the row before. */
module Audit {
  import opened Contract

  type Hash = string

  const GENESIS: Hash := "0000000000000000000000000000000000000000000000000000000000000000"

  type HashFunction = (AuditEntry, Hash) -> Hash

  datatype Row = Row(entry: AuditEntry, prevHash: Hash, entryHash: Hash)

  function LastHash(rows: seq<Row>): Hash {
    if rows == [] then GENESIS else rows[|rows| - 1].entryHash
  }

  function Append(hash: HashFunction, rows: seq<Row>, entry: AuditEntry): seq<Row> {
    rows + [Row(entry, LastHash(rows), hash(entry, LastHash(rows)))]
  }

  function AppendAll(hash: HashFunction, rows: seq<Row>, entries: seq<AuditEntry>): seq<Row> {
    if entries == [] then
      rows
    else
      Append(hash, AppendAll(hash, rows, entries[..|entries| - 1]), entries[|entries| - 1])
  }

  /** A row carries the entry hash of the row before, the first one 64 zeros, and its own hash covers both. */
  lemma AppendExactly(hash: HashFunction, rows: seq<Row>, entry: AuditEntry)
    ensures var zeros := "0000000000000000000000000000000000000000000000000000000000000000";
            var prev := if rows == [] then zeros else rows[|rows| - 1].entryHash;
            Append(hash, rows, entry) == rows + [Row(entry, prev, hash(entry, prev))]
  {
  }

  lemma AppendAllNext(hash: HashFunction, rows: seq<Row>, entries: seq<AuditEntry>, entry: AuditEntry)
    ensures AppendAll(hash, rows, entries + [entry]) == Append(hash, AppendAll(hash, rows, entries), entry)
  {
    assert (entries + [entry])[..|entries|] == entries;
  }

  /** Row `i` carries the hash of its predecessor and its own recomputed hash. */
  predicate Chained(hash: HashFunction, rows: seq<Row>, i: nat)
    requires i < |rows|
  {
    var prev := LastHash(rows[..i]);
    rows[i].prevHash == prev && rows[i].entryHash == hash(rows[i].entry, prev)
  }

  ghost predicate Verifies(hash: HashFunction, rows: seq<Row>) {
    forall i :: 0 <= i < |rows| ==> Chained(hash, rows, i)
  }

  class SqliteAuditSink {
    const hash: HashFunction
    var rows: seq<Row>

    constructor (hash: HashFunction)
      ensures this.hash == hash && rows == []
    {
      this.hash, rows := hash, [];
    }

    method AppendEntry(entry: AuditEntry)
      modifies this
      ensures rows == Append(hash, old(rows), entry)
    {
      var prev := LastHash(rows);
      rows := rows + [Row(entry, prev, hash(entry, prev))];
    }

    method VerifyChain() returns (ok: bool)
      ensures ok <==> Verifies(hash, rows)
    {
      var prev := GENESIS;
      for i := 0 to |rows|
        invariant prev == LastHash(rows[..i])
        invariant forall j :: 0 <= j < i ==> Chained(hash, rows, j)
      {
        if rows[i].prevHash != prev {
          assert !Chained(hash, rows, i);
          return false;
        }
        if hash(rows[i].entry, prev) != rows[i].entryHash {
          assert !Chained(hash, rows, i);
          return false;
        }
        prev := rows[i].entryHash;
      }
      ok := true;
    }
  }

  // ---- what appending keeps ----

  lemma PrefixVerifies(hash: HashFunction, rows: seq<Row>, n: nat)
    requires Verifies(hash, rows) && n <= |rows|
    ensures Verifies(hash, rows[..n])
  {
    forall i | 0 <= i < n
      ensures Chained(hash, rows[..n], i)
    {
      assert rows[..n][..i] == rows[..i];
      assert Chained(hash, rows, i);
    }
  }

  /** A log verifies after an append exactly when it did before: no append breaks a good log, and
      none repairs a bad one. */
  lemma AppendKeepsVerdict(hash: HashFunction, rows: seq<Row>, entry: AuditEntry)
    ensures Verifies(hash, Append(hash, rows, entry)) <==> Verifies(hash, rows)
  {
    var after := Append(hash, rows, entry);
    assert after[..|rows|] == rows;
    if Verifies(hash, after) {
      PrefixVerifies(hash, after, |rows|);
    }
    if Verifies(hash, rows) {
      forall i | 0 <= i < |after|
        ensures Chained(hash, after, i)
      {
        if i < |rows| {
          assert after[..i] == rows[..i];
          assert Chained(hash, rows, i);
        }
      }
    }
  }

  /** Any log written by appends alone verifies, and holds the appended entries in order. */
  lemma {:induction false} AppendsVerify(hash: HashFunction, rows: seq<Row>, entries: seq<AuditEntry>)
    ensures var after := AppendAll(hash, rows, entries);
            && (Verifies(hash, after) <==> Verifies(hash, rows))
            && |after| == |rows| + |entries| && after[..|rows|] == rows
            && forall i :: 0 <= i < |entries| ==> after[|rows| + i].entry == entries[i]
  {
    if entries != [] {
      var before := entries[..|entries| - 1];
      AppendsVerify(hash, rows, before);
      AppendKeepsVerdict(hash, AppendAll(hash, rows, before), entries[|entries| - 1]);
    } else {
      assert rows[..|rows|] == rows;
    }
  }

  // ---- tampering ----

  /** Among the payloads of these rows the hash has no collision and never gives the genesis value. */
  ghost predicate NoCollision(hash: HashFunction, rows: seq<Row>) {
    && (forall r, r' :: r in rows && r' in rows && hash(r.entry, r.prevHash) == hash(r'.entry, r'.prevHash)
          ==> r.entry == r'.entry && r.prevHash == r'.prevHash)
    && forall r :: r in rows ==> hash(r.entry, r.prevHash) != GENESIS
  }

  lemma RowHash(hash: HashFunction, rows: seq<Row>, i: nat)
    requires Verifies(hash, rows) && i < |rows|
    ensures rows[i].entryHash == hash(rows[i].entry, rows[i].prevHash)
    ensures rows[i].prevHash == if i == 0 then GENESIS else rows[i - 1].entryHash
    ensures rows[i] in rows
  {
    assert Chained(hash, rows, i);
  }

  /** No hash occurs twice in a verifying log, nor is any of them the genesis value. */
  lemma {:induction false} HashesDistinct(hash: HashFunction, rows: seq<Row>, i: nat, j: nat)
    requires Verifies(hash, rows) && NoCollision(hash, rows) && i < j < |rows|
    ensures rows[i].entryHash != rows[j].entryHash && rows[i].entryHash != GENESIS
  {
    RowHash(hash, rows, i);
    RowHash(hash, rows, j);
    if i > 0 {
      HashesDistinct(hash, rows, i - 1, j - 1);
    } else {
      RowHash(hash, rows, j - 1);
    }
  }

  lemma LastRowHash(hash: HashFunction, log: seq<Row>)
    requires Verifies(hash, log) && log != []
    ensures var last := log[|log| - 1];
            LastHash(log) == hash(last.entry, last.prevHash) && last.prevHash == LastHash(log[..|log| - 1])
  {
    RowHash(hash, log, |log| - 1);
  }

  lemma OnlyEmptyEndsAtGenesis(hash: HashFunction, log: seq<Row>)
    requires Verifies(hash, log) && NoCollision(hash, log) && log != []
    ensures LastHash(log) != GENESIS
  {
    LastRowHash(hash, log);
    assert log[|log| - 1] in log;
  }

  lemma LastRowCommits(hash: HashFunction, log: seq<Row>, other: seq<Row>)
    requires Verifies(hash, log) && Verifies(hash, other) && NoCollision(hash, log + other)
    requires LastHash(log) == LastHash(other) && log != [] && other != []
    ensures log[|log| - 1] == other[|other| - 1]
    ensures LastHash(log[..|log| - 1]) == LastHash(other[..|other| - 1])
  {
    var (r, q) := (log[|log| - 1], other[|other| - 1]);
    LastRowHash(hash, log);
    LastRowHash(hash, other);
    assert r in log + other && q in log + other;
    assert r.entry == q.entry && r.prevHash == q.prevHash;
  }

  lemma NoCollisionWithin(hash: HashFunction, rows: seq<Row>, part: seq<Row>)
    requires NoCollision(hash, rows) && forall r :: r in part ==> r in rows
    ensures NoCollision(hash, part)
  {
  }

  /** Two logs that end alike differ, if at all, before their last rows. */
  lemma CutLastRow(hash: HashFunction, log: seq<Row>, other: seq<Row>)
    requires Verifies(hash, log) && Verifies(hash, other) && NoCollision(hash, log + other)
    requires LastHash(log) == LastHash(other) && log != [] && other != []
    ensures var (a, b) := (log[..|log| - 1], other[..|other| - 1]);
            && Verifies(hash, a) && Verifies(hash, b) && NoCollision(hash, a + b)
            && LastHash(a) == LastHash(b) && (a == b ==> log == other)
  {
    var (a, b) := (log[..|log| - 1], other[..|other| - 1]);
    LastRowCommits(hash, log, other);
    PrefixVerifies(hash, log, |a|);
    PrefixVerifies(hash, other, |b|);
    NoCollisionWithin(hash, log + other, a + b);
    assert log == a + [log[|log| - 1]] && other == b + [other[|other| - 1]];
  }

  /** The last hash commits to the whole log: entries, their order and their number. */
  lemma {:induction false} LastHashCommits(hash: HashFunction, log: seq<Row>, other: seq<Row>)
    requires Verifies(hash, log) && Verifies(hash, other) && NoCollision(hash, log + other)
    requires LastHash(log) == LastHash(other)
    ensures log == other
  {
    if log != [] && other != [] {
      CutLastRow(hash, log, other);
      LastHashCommits(hash, log[..|log| - 1], other[..|other| - 1]);
    } else if log != [] {
      NoCollisionWithin(hash, log + other, log);
      OnlyEmptyEndsAtGenesis(hash, log);
    } else if other != [] {
      NoCollisionWithin(hash, log + other, other);
      OnlyEmptyEndsAtGenesis(hash, other);
    }
  }

  /** A row's predecessor hash tells its position. */
  lemma SamePosition(hash: HashFunction, log: seq<Row>, p: nat, n: nat)
    requires Verifies(hash, log) && NoCollision(hash, log) && p < |log| && n <= |log|
    requires log[p].prevHash == LastHash(log[..n])
    ensures p == n
  {
    RowHash(hash, log, p);
    assert p > 0 ==> log[..p][p - 1] == log[p - 1];
    PrefixVerifies(hash, log, p);
    PrefixVerifies(hash, log, n);
    NoCollisionWithin(hash, log, log[..p] + log[..n]);
    LastHashCommits(hash, log[..p], log[..n]);
  }

  /** A row of the log that follows the first `n` rows is the next one. */
  lemma NextRow(hash: HashFunction, log: seq<Row>, drawn: seq<Row>, n: nat)
    requires Verifies(hash, log) && NoCollision(hash, log) && Verifies(hash, drawn)
    requires n < |drawn| && drawn[n] in log && drawn[..n] <= log
    ensures n < |log| && drawn[n] == log[n]
  {
    RowHash(hash, drawn, n);
    var p: nat :| p < |log| && log[p] == drawn[n];
    assert drawn[..n] == log[..n];
    assert LastHash(log[..n]) == LastHash(drawn[..n]) == drawn[n].prevHash;
    SamePosition(hash, log, p, n);
  }

  /** Rows deleted, repeated or reordered: what still verifies is the log cut off at some point. */
  lemma {:induction false} DrawnRowsArePrefix(hash: HashFunction, log: seq<Row>, drawn: seq<Row>)
    requires Verifies(hash, log) && NoCollision(hash, log)
    requires forall r :: r in drawn ==> r in log
    requires Verifies(hash, drawn)
    ensures drawn <= log
  {
    if drawn != [] {
      var n := |drawn| - 1;
      PrefixVerifies(hash, drawn, n);
      DrawnRowsArePrefix(hash, log, drawn[..n]);
      NextRow(hash, log, drawn, n);
      assert drawn == drawn[..n] + [log[n]];
    }
  }

  /** So a list of rows of a good log verifies exactly when it is that log cut off at some point: a
      cut at the end is the one tampering by deletion that the chain cannot tell. */
  lemma DrawnVerifiesExactly(hash: HashFunction, log: seq<Row>, drawn: seq<Row>)
    requires Verifies(hash, log) && NoCollision(hash, log)
    requires forall r :: r in drawn ==> r in log
    ensures Verifies(hash, drawn) <==> drawn <= log
  {
    if Verifies(hash, drawn) {
      DrawnRowsArePrefix(hash, log, drawn);
    }
    if drawn <= log {
      PrefixVerifies(hash, log, |drawn|);
      assert log[..|drawn|] == drawn;
    }
  }

  /** Rewriting one row in place, in any of its fields, goes undetected only where nothing follows
      it, and there only if the new row carries the right hashes. */
  lemma EditDetected(hash: HashFunction, log: seq<Row>, i: nat, edited: Row)
    requires Verifies(hash, log) && i < |log| && edited != log[i]
    requires NoCollision(hash, log + [edited])
    ensures Verifies(hash, log[i := edited]) <==>
            i == |log| - 1 && edited.prevHash == log[i].prevHash
            && edited.entryHash == hash(edited.entry, edited.prevHash)
  {
    var tampered := log[i := edited];
    RowHash(hash, log, i);
    assert log[i] in log + [edited] && edited in log + [edited];
    if Verifies(hash, tampered) {
      RowHash(hash, tampered, i);
      if i + 1 < |log| {
        RowHash(hash, log, i + 1);
        RowHash(hash, tampered, i + 1);
      }
    }
    if i == |log| - 1 && edited.prevHash == log[i].prevHash && edited.entryHash == hash(edited.entry, edited.prevHash) {
      forall j | 0 <= j < |tampered|
        ensures Chained(hash, tampered, j)
      {
        assert tampered[..j] == log[..j];
        assert Chained(hash, log, j);
      }
    }
  }

  /** Putting a row in goes undetected only at the end, and there only if it carries the right hashes. */
  lemma InsertDetected(hash: HashFunction, log: seq<Row>, i: nat, r: Row)
    requires Verifies(hash, log) && i <= |log| && NoCollision(hash, log + [r])
    ensures Verifies(hash, log[..i] + [r] + log[i..]) <==>
            i == |log| && r.prevHash == LastHash(log) && r.entryHash == hash(r.entry, r.prevHash)
  {
    var tampered := log[..i] + [r] + log[i..];
    assert tampered[..i] == log[..i];
    if i < |log| {
      if Verifies(hash, tampered) {
        RowHash(hash, tampered, i);
        RowHash(hash, tampered, i + 1);
        RowHash(hash, log, i);
        assert r.prevHash == LastHash(log[..i]) == r.entryHash;
        ForeignHashIsNew(hash, log, i, r);
      }
    } else {
      assert log[..i] == log && tampered == log + [r];
      AppendKeepsVerdict(hash, log, r.entry);
      if Verifies(hash, tampered) {
        RowHash(hash, tampered, i);
      }
    }
  }

  lemma HashMovesOn(hash: HashFunction, log: seq<Row>, i: nat)
    requires Verifies(hash, log) && NoCollision(hash, log) && 0 < i <= |log|
    ensures log[i - 1].prevHash != LastHash(log[..i])
  {
    if log[i - 1].prevHash == LastHash(log[..i]) {
      SamePosition(hash, log, i - 1, i);
    }
  }

  lemma LastOfFirst(hash: HashFunction, log: seq<Row>, i: nat)
    requires Verifies(hash, log) && 0 < i <= |log|
    ensures LastHash(log[..i]) == hash(log[i - 1].entry, log[i - 1].prevHash) && log[i - 1] in log
  {
    RowHash(hash, log, i - 1);
  }

  lemma OtherPayload(hash: HashFunction, rows: seq<Row>, r: Row, q: Row)
    requires NoCollision(hash, rows) && r in rows && q in rows && r.prevHash != q.prevHash
    ensures hash(r.entry, r.prevHash) != hash(q.entry, q.prevHash)
  {
  }

  /** A row that continues the first `i` rows does not carry the hash it continues. */
  lemma ForeignHashIsNew(hash: HashFunction, log: seq<Row>, i: nat, r: Row)
    requires Verifies(hash, log) && i <= |log| && NoCollision(hash, log + [r])
    requires r.prevHash == LastHash(log[..i])
    ensures hash(r.entry, r.prevHash) != LastHash(log[..i])
  {
    assert r in log + [r];
    if i > 0 {
      NoCollisionWithin(hash, log + [r], log);
      HashMovesOn(hash, log, i);
      LastOfFirst(hash, log, i);
      OtherPayload(hash, log + [r], r, log[i - 1]);
    }
  }

  // ---- what no chain can tell ----

  function Entries(rows: seq<Row>): (entries: seq<AuditEntry>)
    ensures |entries| == |rows| && forall i :: 0 <= i < |rows| ==> entries[i] == rows[i].entry
  {
    seq(|rows|, i requires 0 <= i < |rows| => rows[i].entry)
  }

  lemma LastRowIsAppended(hash: HashFunction, rows: seq<Row>)
    requires Verifies(hash, rows) && rows != []
    ensures rows == Append(hash, rows[..|rows| - 1], rows[|rows| - 1].entry)
  {
    LastRowHash(hash, rows);
    assert rows == rows[..|rows| - 1] + [rows[|rows| - 1]];
  }

  lemma {:induction false} VerifyingIsAppended(hash: HashFunction, rows: seq<Row>)
    requires Verifies(hash, rows)
    ensures rows == AppendAll(hash, [], Entries(rows))
  {
    if rows != [] {
      var n := |rows| - 1;
      LastRowIsAppended(hash, rows);
      PrefixVerifies(hash, rows, n);
      VerifyingIsAppended(hash, rows[..n]);
      assert Entries(rows)[..n] == Entries(rows[..n]);
    }
  }

  /** A log verifies exactly when it is what appending its own entries would have written: the chain
      tells whether the hashes fit the entries, and nothing of what the entries once were. */
  lemma VerifiesExactly(hash: HashFunction, rows: seq<Row>)
    ensures Verifies(hash, rows) <==> rows == AppendAll(hash, [], Entries(rows))
  {
    AppendsVerify(hash, [], Entries(rows));
    if Verifies(hash, rows) {
      VerifyingIsAppended(hash, rows);
    }
  }

  lemma {:induction false} EntriesOfAppended(hash: HashFunction, rows: seq<Row>, entries: seq<AuditEntry>)
    ensures Entries(AppendAll(hash, rows, entries)) == Entries(rows) + entries
  {
    if entries != [] {
      var n := |entries| - 1;
      EntriesOfAppended(hash, rows, entries[..n]);
      assert Entries(AppendAll(hash, rows, entries)) == Entries(AppendAll(hash, rows, entries[..n])) + [entries[n]];
    }
  }

  /** Whatever is put in place of the rows from `i` on, deleting, editing, inserting or reordering, goes
      undetected once the hashes are written anew. */
  lemma RechainedVerifies(hash: HashFunction, log: seq<Row>, i: nat, entries: seq<AuditEntry>)
    requires Verifies(hash, log) && i <= |log|
    ensures var tampered := AppendAll(hash, log[..i], entries);
            Verifies(hash, tampered) && Entries(tampered) == Entries(log)[..i] + entries
  {
    PrefixVerifies(hash, log, i);
    AppendsVerify(hash, log[..i], entries);
    EntriesOfAppended(hash, log[..i], entries);
    assert Entries(log[..i]) == Entries(log)[..i];
  }

  /** It shows in the last hash, exactly when an entry has changed. */
  lemma RechainedShows(hash: HashFunction, log: seq<Row>, i: nat, entries: seq<AuditEntry>)
    requires Verifies(hash, log) && i <= |log| && NoCollision(hash, log + AppendAll(hash, log[..i], entries))
    ensures LastHash(AppendAll(hash, log[..i], entries)) == LastHash(log) <==> entries == Entries(log)[i..]
  {
    RechainedVerifies(hash, log, i, entries);
    SameLogExactly(hash, log, AppendAll(hash, log[..i], entries));
    SameTail(Entries(log), i, entries);
  }

  lemma SameTail<T>(whole: seq<T>, i: nat, tail: seq<T>)
    requires i <= |whole|
    ensures whole[..i] + tail == whole <==> tail == whole[i..]
  {
    assert (whole[..i] + tail)[i..] == tail;
    assert whole == whole[..i] + whole[i..];
  }

  lemma SameLogExactly(hash: HashFunction, log: seq<Row>, other: seq<Row>)
    requires Verifies(hash, log) && Verifies(hash, other) && NoCollision(hash, log + other)
    ensures LastHash(other) == LastHash(log) <==> Entries(other) == Entries(log)
  {
    if LastHash(other) == LastHash(log) {
      LastHashCommits(hash, log, other);
    }
    if Entries(other) == Entries(log) {
      VerifyingIsAppended(hash, log);
      VerifyingIsAppended(hash, other);
    }
  }

  /** Such a log, for every hash: the first of two entries deleted and the second chained anew. It
      verifies, and is no prefix of the log it came from. */
  lemma RechainedDeletion(hash: HashFunction) returns (log: seq<Row>, tampered: seq<Row>)
    ensures Verifies(hash, log) && log != [] && Entries(tampered) == Entries(log)[1..]
    ensures Verifies(hash, tampered) && !(tampered <= log)
  {
    var anyone := Capability("", "", [], 0);
    var allowed := AuditEntry(Resolve, 0, "", IdOf(anyone), None, 0, Allow);
    var refused := allowed.(decision := Refuse);
    log := AppendAll(hash, [], [refused, allowed]);
    AppendsVerify(hash, [], [refused, allowed]);
    tampered := AppendAll(hash, log[..0], [allowed]);
    RechainedVerifies(hash, log, 0, [allowed]);
    assert tampered[0].entry == Entries(tampered)[0] == allowed && log[0].entry == refused;
  }

  /** What does detect every tampering: the last hash, kept where it cannot be rewritten. */
  lemma AnchoredExactly(hash: HashFunction, log: seq<Row>, other: seq<Row>)
    requires Verifies(hash, log) && NoCollision(hash, log + other)
    ensures Verifies(hash, other) && LastHash(other) == LastHash(log) <==> other == log
  {
    if Verifies(hash, other) && LastHash(other) == LastHash(log) {
      LastHashCommits(hash, log, other);
    }
  }
}
