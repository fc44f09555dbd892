/** The ordered comparison of the expected migration journal with the rows of the applied ledger. */
module MigrationLedger {
  import opened Prelude

  datatype Expected = Expected(tag: string, hash: string, createdAt: int)
  datatype Applied = Applied(id: int, hash: string, createdAt: int)

  datatype Status = StatusOk | StatusFail | StatusUnknown
  datatype Detail =
    | Match | Missing | Extra | HashMismatch | TimestampMismatch | OrderMismatch | Malformed
    | NoTable | TimedOut | QueryError
  datatype Report = Report(status: Status, expected: nat, applied: nat, detail: Detail)

  // ---- Hashes -------------------------------------------------------------

  predicate IsHexDigit(c: char) {
    '0' <= c <= '9' || 'a' <= c <= 'f' || 'A' <= c <= 'F'
  }

  /** The digest shape the ledger accepts: 64 hexadecimal digits of either case. */
  predicate IsDigest(h: string) {
    |h| == 64 && forall i :: 0 <= i < |h| ==> IsHexDigit(h[i])
  }

  function LowerChar(c: char): char {
    if 'A' <= c <= 'Z' then (c as int + 32) as char else c
  }

  function Lower(s: string): (r: string)
    ensures |r| == |s|
  {
    seq(|s|, i requires 0 <= i < |s| => LowerChar(s[i]))
  }

  function ExpectedHashes(rows: seq<Expected>): (r: seq<string>)
    ensures |r| == |rows| && forall i :: 0 <= i < |r| ==> r[i] == rows[i].hash
  {
    seq(|rows|, i requires 0 <= i < |rows| => rows[i].hash)
  }

  function AppliedHashes(rows: seq<Applied>): (r: seq<string>)
    ensures |r| == |rows| && forall i :: 0 <= i < |r| ==> r[i] == rows[i].hash
  {
    seq(|rows|, i requires 0 <= i < |rows| => rows[i].hash)
  }

  // ---- What each verdict means --------------------------------------------

  predicate WellFormedRow(row: Applied) {
    row.id > 0 && IsDigest(row.hash)
  }

  /** Valid digests, ids strictly increasing, and no digest repeated in any case. */
  ghost predicate WellFormed(rows: seq<Applied>) {
    && (forall i :: 0 <= i < |rows| ==> WellFormedRow(rows[i]))
    && (forall i, j :: 0 <= i < j < |rows| ==> rows[i].id < rows[j].id)
    && (forall i, j :: 0 <= i < j < |rows| ==> Lower(rows[i].hash) != Lower(rows[j].hash))
  }

  predicate SameHash(want: Expected, got: Applied) {
    Lower(got.hash) == Lower(want.hash)
  }

  /** Pointwise agreement: digests up to case, timestamps exactly. */
  ghost predicate Matches(expected: seq<Expected>, applied: seq<Applied>) {
    && |expected| == |applied|
    && forall i :: 0 <= i < |expected| ==>
         SameHash(expected[i], applied[i]) && expected[i].createdAt == applied[i].createdAt
  }

  /** The same digests, letter for letter and counted, but not in the same places. */
  ghost predicate Rearranged(expected: seq<Expected>, applied: seq<Applied>) {
    && multiset(ExpectedHashes(expected)) == multiset(AppliedHashes(applied))
    && ExpectedHashes(expected) != AppliedHashes(applied)
  }

  /** Row `i` is the first one that disagrees. */
  ghost predicate FirstMismatch(expected: seq<Expected>, applied: seq<Applied>, i: nat)
    requires |expected| == |applied|
  {
    && i < |expected|
    && Matches(expected[..i], applied[..i])
    && !(SameHash(expected[i], applied[i]) && expected[i].createdAt == applied[i].createdAt)
  }

  /** `detail` is the verdict on the two sequences. */
  ghost predicate Verdict(expected: seq<Expected>, applied: seq<Applied>, detail: Detail) {
    if !WellFormed(applied) then detail == Malformed
    else if |applied| < |expected| then detail == Missing
    else if |applied| > |expected| then detail == Extra
    else if Rearranged(expected, applied) then detail == OrderMismatch
    else if Matches(expected, applied) then detail == Match
    else exists i: nat ::
      && FirstMismatch(expected, applied, i)
      && detail == if SameHash(expected[i], applied[i]) then TimestampMismatch else HashMismatch
  }

  // ---- The sorted, joined key ---------------------------------------------

  const NUL: string := "\0"

  function Join(xs: seq<string>): string {
    if xs == [] then "" else if |xs| == 1 then xs[0] else xs[0] + NUL + Join(xs[1..])
  }

  function CountNul(s: string): nat {
    if s == "" then 0 else (if s[0] == '\0' then 1 else 0) + CountNul(s[1..])
  }

  function CountNuls(xs: seq<string>): nat {
    if xs == [] then 0 else CountNul(xs[0]) + CountNuls(xs[1..])
  }

  predicate NulFree(s: string) {
    forall i :: 0 <= i < |s| ==> s[i] != '\0'
  }

  lemma {:induction false} CountNulAppend(s: string, t: string)
    ensures CountNul(s + t) == CountNul(s) + CountNul(t)
  {
    if s == "" {
      assert s + t == t;
    } else {
      assert (s + t)[1..] == s[1..] + t;
      CountNulAppend(s[1..], t);
    }
  }

  lemma {:induction false} CountNulZero(s: string)
    ensures CountNul(s) == 0 <==> NulFree(s)
  {
    if s != "" {
      CountNulZero(s[1..]);
      assert NulFree(s) <==> s[0] != '\0' && NulFree(s[1..]);
    }
  }

  lemma {:induction false} CountNulsZero(xs: seq<string>)
    ensures CountNuls(xs) == 0 <==> forall i :: 0 <= i < |xs| ==> NulFree(xs[i])
  {
    if xs != [] {
      CountNulZero(xs[0]);
      CountNulsZero(xs[1..]);
      assert forall i :: 0 < i < |xs| ==> xs[i] == xs[1..][i - 1];
    }
  }

  lemma {:induction false} CountNulJoin(xs: seq<string>)
    requires xs != []
    ensures CountNul(Join(xs)) == |xs| - 1 + CountNuls(xs)
  {
    if |xs| > 1 {
      CountNulAppend(xs[0] + NUL, Join(xs[1..]));
      CountNulAppend(xs[0], NUL);
      CountNulJoin(xs[1..]);
    }
  }

  lemma {:induction false} JoinInjectiveNulFree(xs: seq<string>, ys: seq<string>)
    requires |xs| == |ys| && Join(xs) == Join(ys)
    requires forall i :: 0 <= i < |xs| ==> NulFree(xs[i]) && NulFree(ys[i])
    ensures xs == ys
  {
    if |xs| > 1 {
      var x, y, s := xs[0], ys[0], Join(xs);
      assert s == x + NUL + Join(xs[1..]) == y + NUL + Join(ys[1..]);
      assert s[|x|] == '\0' && s[|y|] == '\0' && s[..|x|] == x && s[..|y|] == y;
      assert forall k :: 0 <= k < |x| ==> s[k] == x[k];
      assert forall k :: 0 <= k < |y| ==> s[k] == y[k];
      assert |x| == |y|;
      assert s[|x| + 1..] == Join(xs[1..]) == Join(ys[1..]);
      JoinInjectiveNulFree(xs[1..], ys[1..]);
      assert xs == [x] + xs[1..] && ys == [y] + ys[1..];
    }
  }

  /** Only one side need be free of the separator: the other cannot then contain it. */
  lemma JoinInjective(xs: seq<string>, ys: seq<string>)
    requires |xs| == |ys| && Join(xs) == Join(ys)
    requires forall i :: 0 <= i < |ys| ==> NulFree(ys[i])
    ensures xs == ys
  {
    if xs != [] {
      CountNulJoin(xs);
      CountNulJoin(ys);
      CountNulsZero(xs);
      CountNulsZero(ys);
      JoinInjectiveNulFree(xs, ys);
    }
  }

  function SortedHashKey(hashes: seq<string>): string {
    Join(SortBy(LexLeq, hashes))
  }

  /** The joined key tells multisets of hashes apart, whatever the expected side holds. */
  lemma SortedHashKeyDecidesMultiset(expected: seq<string>, applied: seq<string>)
    requires |expected| == |applied|
    requires forall i :: 0 <= i < |applied| ==> IsDigest(applied[i])
    ensures SortedHashKey(expected) == SortedHashKey(applied) <==> multiset(expected) == multiset(applied)
  {
    LexIsTotalOrder();
    SortBySorted(LexLeq, expected);
    SortBySorted(LexLeq, applied);
    var e, a := SortBy(LexLeq, expected), SortBy(LexLeq, applied);
    assert |e| == |multiset(e)| == |multiset(expected)| == |expected|;
    assert |a| == |multiset(a)| == |multiset(applied)| == |applied|;
    forall i | 0 <= i < |a| ensures NulFree(a[i]) {
      assert a[i] in multiset(applied);
    }
    if Join(e) == Join(a) {
      JoinInjective(e, a);
    }
    if multiset(expected) == multiset(applied) {
      SortedUnique(LexLeq, e, a);
    }
  }

  method IsHashPermutation(expected: seq<Expected>, applied: seq<Applied>) returns (r: bool)
    requires WellFormed(applied)
    ensures r <==> |expected| == |applied| && Rearranged(expected, applied)
  {
    if |expected| != |applied| || |expected| == 0 {
      return false;
    }
    SortedHashKeyDecidesMultiset(ExpectedHashes(expected), AppliedHashes(applied));
    var sameMultiset := SortedHashKey(ExpectedHashes(expected)) == SortedHashKey(AppliedHashes(applied));
    if !sameMultiset {
      return false;
    }
    r := exists i :: 0 <= i < |expected| && expected[i].hash != applied[i].hash;
    assert !r ==> ExpectedHashes(expected) == AppliedHashes(applied);
  }

  // ---- Validation and comparison ------------------------------------------

  /** What the scan has established after `k` rows. */
  ghost predicate Scanned(rows: seq<Applied>, k: nat, ids: set<int>, hashes: set<string>)
    requires k <= |rows|
  {
    && (forall i :: 0 <= i < k ==> WellFormedRow(rows[i]))
    && ids == (set i | 0 <= i < k :: rows[i].id)
    && hashes == (set i | 0 <= i < k :: Lower(rows[i].hash))
    && (forall i, j :: 0 <= i < j < k ==> Lower(rows[i].hash) != Lower(rows[j].hash))
  }

  method ValidateAppliedRows(rows: seq<Applied>) returns (ok: bool)
    ensures ok <==> WellFormed(rows)
  {
    var seenIds: set<int>, seenHashes: set<string> := {}, {};
    for k := 0 to |rows|
      invariant Scanned(rows, k, seenIds, seenHashes)
    {
      var row := rows[k];
      if !WellFormedRow(row) {
        return false;
      }
      if row.id in seenIds || Lower(row.hash) in seenHashes {
        return false;
      }
      seenIds := seenIds + {row.id};
      seenHashes := seenHashes + {Lower(row.hash)};
    }
    ok := IdsIncrease(rows);
  }

  /** Applied ids must be strictly increasing in query order. */
  method IdsIncrease(rows: seq<Applied>) returns (ok: bool)
    ensures ok <==> forall i, j :: 0 <= i < j < |rows| ==> rows[i].id < rows[j].id
  {
    var k := 1;
    while k < |rows|
      invariant k >= 1
      invariant forall i, j :: 0 <= i < j < k && j < |rows| ==> rows[i].id < rows[j].id
    {
      if rows[k].id <= rows[k - 1].id {
        return false;
      }
      k := k + 1;
    }
    return true;
  }

  method CompareMigrationSequences(expected: seq<Expected>, applied: seq<Applied>) returns (r: Report)
    ensures Verdict(expected, applied, r.detail)
    ensures r.status == StatusOk <==> WellFormed(applied) && Matches(expected, applied)
    ensures r.status == if r.detail == Match then StatusOk else StatusFail
    ensures r.detail == OrderMismatch
       <==> WellFormed(applied) && |expected| == |applied| && Rearranged(expected, applied)
    ensures r.expected == |expected| && r.applied == |applied|
  {
    if WellFormed(applied) && Matches(expected, applied) { MatchIsNotRearranged(expected, applied); }
    var wellFormed := ValidateAppliedRows(applied);
    if !wellFormed {
      return Report(StatusFail, |expected|, |applied|, Malformed);
    }
    if |applied| < |expected| {
      return Report(StatusFail, |expected|, |applied|, Missing);
    }
    if |applied| > |expected| {
      return Report(StatusFail, |expected|, |applied|, Extra);
    }
    var rearranged := IsHashPermutation(expected, applied);
    if rearranged {
      return Report(StatusFail, |expected|, |applied|, OrderMismatch);
    }
    for i := 0 to |expected|
      invariant forall j :: 0 <= j < i ==>
        SameHash(expected[j], applied[j]) && applied[j].createdAt == expected[j].createdAt
    {
      if !SameHash(expected[i], applied[i]) {
        assert FirstMismatch(expected, applied, i);
        return Report(StatusFail, |expected|, |applied|, HashMismatch);
      }
      if applied[i].createdAt != expected[i].createdAt {
        assert FirstMismatch(expected, applied, i);
        return Report(StatusFail, |expected|, |applied|, TimestampMismatch);
      }
    }
    return Report(StatusOk, |expected|, |applied|, Match);
  }

  /** A true match is never reported as a rearrangement, although that test comes first and is case-sensitive. */
  lemma MatchIsNotRearranged(expected: seq<Expected>, applied: seq<Applied>)
    requires WellFormed(applied) && Matches(expected, applied)
    ensures !Rearranged(expected, applied)
  {
    var e, a := ExpectedHashes(expected), AppliedHashes(applied);
    if multiset(e) == multiset(a) {
      forall i | 0 <= i < |e| ensures e[i] == a[i] {
        assert e[i] in multiset(a) && SameHash(expected[i], applied[i]);
        var j :| 0 <= j < |a| && a[j] == e[i];
        assert Lower(applied[j].hash) == Lower(applied[i].hash);
      }
    }
  }

  /** The verdict is `Match` exactly for well-formed rows that agree pointwise. */
  lemma OkIffWellFormedAndMatching(expected: seq<Expected>, applied: seq<Applied>)
    ensures Verdict(expected, applied, Match) <==> WellFormed(applied) && Matches(expected, applied)
  {
    if WellFormed(applied) && Matches(expected, applied) {
      MatchIsNotRearranged(expected, applied);
    }
  }


  lemma MismatchIndexUnique(expected: seq<Expected>, applied: seq<Applied>, i: nat, j: nat)
    requires |expected| == |applied|
    requires FirstMismatch(expected, applied, i) && FirstMismatch(expected, applied, j)
    ensures i == j
  {
  }

  /** The verdict is a function of the two sequences. */
  lemma VerdictUnique(expected: seq<Expected>, applied: seq<Applied>, d1: Detail, d2: Detail)
    requires Verdict(expected, applied, d1) && Verdict(expected, applied, d2)
    ensures d1 == d2
  {
    if WellFormed(applied) && |expected| == |applied|
       && !Rearranged(expected, applied) && !Matches(expected, applied) {
      var i: nat :| FirstMismatch(expected, applied, i)
        && d1 == if SameHash(expected[i], applied[i]) then TimestampMismatch else HashMismatch;
      var j: nat :| FirstMismatch(expected, applied, j)
        && d2 == if SameHash(expected[j], applied[j]) then TimestampMismatch else HashMismatch;
      MismatchIndexUnique(expected, applied, i, j);
    }
  }

  /** Of any verdict on the two sequences: a rearrangement, and nothing else, reads as one. */
  lemma OrderMismatchIffRearranged(expected: seq<Expected>, applied: seq<Applied>, d: Detail)
    requires Verdict(expected, applied, d)
    ensures d == OrderMismatch <==> WellFormed(applied) && |expected| == |applied| && Rearranged(expected, applied)
    ensures d == Match <==> WellFormed(applied) && Matches(expected, applied)
  {
    OkIffWellFormedAndMatching(expected, applied);
    if WellFormed(applied) && |expected| == |applied| && Rearranged(expected, applied) {
      VerdictUnique(expected, applied, d, OrderMismatch);
    }
    if WellFormed(applied) && Matches(expected, applied) {
      VerdictUnique(expected, applied, d, Match);
    }
  }

  // ---- The ledger table ---------------------------------------------------

  /** A row as PostgreSQL returns it: the text columns may be NULL. */
  datatype LedgerRow = LedgerRow(id: int, hash: Option<string>, createdAt: Option<int>)
  datatype QueryOutcome = Rows(rows: seq<LedgerRow>) | UndefinedTable | QueryTimeout | QueryFailure

  predicate Parsable(row: LedgerRow) {
    row.hash.Some? && row.hash.value != "" && row.createdAt.Some?
  }

  function ParseRow(row: LedgerRow): Applied
    requires Parsable(row)
  {
    Applied(row.id, row.hash.value, row.createdAt.value)
  }

  ghost predicate AllParsable(rows: seq<LedgerRow>) {
    forall i :: 0 <= i < |rows| ==> Parsable(rows[i])
  }

  ghost function Parsed(rows: seq<LedgerRow>): (r: seq<Applied>)
    requires AllParsable(rows)
    ensures |r| == |rows| && forall i :: 0 <= i < |r| ==> r[i] == ParseRow(rows[i])
  {
    seq(|rows|, i requires 0 <= i < |rows| => ParseRow(rows[i]))
  }

  method ParseAppliedRows(rows: seq<LedgerRow>) returns (r: Option<seq<Applied>>)
    ensures r.Some? <==> AllParsable(rows)
    ensures r.Some? ==> r.value == Parsed(rows)
  {
    var applied: seq<Applied> := [];
    for k := 0 to |rows|
      invariant AllParsable(rows[..k])
      invariant |applied| == k && forall i :: 0 <= i < k ==> applied[i] == ParseRow(rows[i])
    {
      if !Parsable(rows[k]) {
        return None;
      }
      assert rows[..k + 1] == rows[..k] + [rows[k]];
      applied := applied + [ParseRow(rows[k])];
    }
    assert rows[..|rows|] == rows;
    return Some(applied);
  }

  /** The whole table agrees with the journal. */
  ghost predicate LedgerAgrees(expected: seq<Expected>, table: seq<LedgerRow>) {
    AllParsable(table) && WellFormed(Parsed(table)) && Matches(expected, Parsed(table))
  }

  function Bounded(table: seq<LedgerRow>, limit: nat): seq<LedgerRow> {
    if |table| <= limit then table else table[..limit]
  }

  /** Reading one row more than expected decides agreement of the whole table. */
  lemma BoundedReadSuffices(expected: seq<Expected>, table: seq<LedgerRow>)
    ensures LedgerAgrees(expected, Bounded(table, |expected| + 1)) <==> LedgerAgrees(expected, table)
  {
  }

  /** Only `|expected| + 1` rows are read, yet the status speaks for the whole table. */
  method CheckMigrationLedger(expected: seq<Expected>, table: QueryOutcome) returns (r: Report)
    ensures table.Rows? ==> (r.status == StatusOk <==> LedgerAgrees(expected, table.rows))
    ensures table.Rows? ==>
      var read := if |table.rows| <= |expected| then table.rows else table.rows[..|expected| + 1];
      && r.applied == |read|
      && (if AllParsable(read) then Verdict(expected, Parsed(read), r.detail) else r.detail == Malformed)
      && r.status == if r.detail == Match then StatusOk else StatusFail
    ensures table.UndefinedTable? ==> r == Report(StatusUnknown, |expected|, 0, NoTable)
    ensures table.QueryTimeout? ==> r == Report(StatusFail, |expected|, 0, TimedOut)
    ensures table.QueryFailure? ==> r == Report(StatusFail, |expected|, 0, QueryError)
    ensures r.expected == |expected|
  {
    match table {
      case UndefinedTable => r := Report(StatusUnknown, |expected|, 0, NoTable);
      case QueryTimeout => r := Report(StatusFail, |expected|, 0, TimedOut);
      case QueryFailure => r := Report(StatusFail, |expected|, 0, QueryError);
      case Rows(rows) =>
        var read := Bounded(rows, |expected| + 1);
        assert |rows| == |expected| + 1 ==> rows[..|expected| + 1] == rows;
        BoundedReadSuffices(expected, rows);
        var parsed := ParseAppliedRows(read);
        if parsed.None? {
          r := Report(StatusFail, |expected|, |read|, Malformed);
        } else {
          r := CompareMigrationSequences(expected, parsed.value);
          OkIffWellFormedAndMatching(expected, parsed.value);
          if Verdict(expected, parsed.value, Match) {
            VerdictUnique(expected, parsed.value, Match, r.detail);
          }
        }
    }
  }
}
