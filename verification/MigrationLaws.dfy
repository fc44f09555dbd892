/** The ledger's verdicts in terms of the rows' own columns, each with the exact rows that earn it. */
module MigrationLaws {
  import opened Prelude
  import opened MigrationLedger

  // ---- Digests ------------------------------------------------------------

  /** The same character, but perhaps for the case of a Latin letter. */
  predicate SameLetter(c: char, d: char) {
    || c == d
    || ('A' <= c <= 'Z' && d as int == c as int + 32)
    || ('A' <= d <= 'Z' && c as int == d as int + 32)
  }

  predicate SameDigest(g: string, h: string) {
    |g| == |h| && forall i :: 0 <= i < |g| ==> SameLetter(g[i], h[i])
  }

  lemma LowerExactly(g: string, h: string)
    ensures Lower(g) == Lower(h) <==> SameDigest(g, h)
  {
    if |g| == |h| {
      assert forall i :: 0 <= i < |g| ==> (Lower(g)[i] == Lower(h)[i] <==> SameLetter(g[i], h[i]));
    }
  }

  // ---- Well-formed rows ---------------------------------------------------

  lemma DigestExactly(h: string)
    ensures IsDigest(h) <==> |h| == 64 && forall c <- h :: c in "0123456789abcdefABCDEF"
  {
    forall c: char ensures IsHexDigit(c) <==> c in "0123456789abcdefABCDEF" {
      HexDigit(c);
    }
  }

  lemma HexDigit(c: char)
    ensures IsHexDigit(c) <==> c in "0123456789abcdefABCDEF"
  {
    var all := "0123456789abcdefABCDEF";
    if '0' <= c <= '9' { assert all[c as int - '0' as int] == c; }
    if 'a' <= c <= 'f' { assert all[10 + c as int - 'a' as int] == c; }
    if 'A' <= c <= 'F' { assert all[16 + c as int - 'A' as int] == c; }
  }

  /** Positive ids in ascending order, digests of 64 hexadecimal digits, and none twice in any case. */
  lemma WellFormedExactly(rows: seq<Applied>)
    ensures WellFormed(rows) <==>
      && (forall row <- rows :: row.id > 0 && |row.hash| == 64)
      && (forall row <- rows :: forall c <- row.hash :: c in "0123456789abcdefABCDEF")
      && (forall i, j :: 0 <= i < j < |rows| ==> rows[i].id < rows[j].id)
      && (forall i, j :: 0 <= i < j < |rows| ==> !SameDigest(rows[i].hash, rows[j].hash))
  {
    forall row | row in rows
      ensures IsDigest(row.hash) <==> |row.hash| == 64 && forall c <- row.hash :: c in "0123456789abcdefABCDEF"
    {
      DigestExactly(row.hash);
    }
    forall i, j | 0 <= i < j < |rows|
      ensures Lower(rows[i].hash) == Lower(rows[j].hash) <==> SameDigest(rows[i].hash, rows[j].hash)
    {
      LowerExactly(rows[i].hash, rows[j].hash);
    }
    hide IsDigest, SameDigest, Lower;
  }

  // ---- The verdicts -------------------------------------------------------

  predicate Agree(want: Expected, got: Applied) {
    SameDigest(want.hash, got.hash) && want.createdAt == got.createdAt
  }

  lemma AgreeExactly(want: Expected, got: Applied)
    ensures SameHash(want, got) <==> SameDigest(want.hash, got.hash)
  {
    LowerExactly(got.hash, want.hash);
  }

  /** The two sequences first disagree at `i`. */
  ghost predicate FirstApart(expected: seq<Expected>, applied: seq<Applied>, i: nat) {
    && i < |expected| && i < |applied|
    && (forall j :: 0 <= j < i ==> Agree(expected[j], applied[j]))
    && !Agree(expected[i], applied[i])
  }

  /** Agreement everywhere, or a first place of disagreement that names the verdict; before that, the lengths. */
  lemma VerdictExactly(expected: seq<Expected>, applied: seq<Applied>, d: Detail)
    ensures var same := |applied| == |expected|;
      var moved := same && multiset(ExpectedHashes(expected)) == multiset(AppliedHashes(applied))
        && ExpectedHashes(expected) != AppliedHashes(applied);
      Verdict(expected, applied, d) <==>
        match d
        case Malformed => !WellFormed(applied)
        case Missing => WellFormed(applied) && |applied| < |expected|
        case Extra => WellFormed(applied) && |applied| > |expected|
        case OrderMismatch => WellFormed(applied) && moved
        case Match => WellFormed(applied) && same && forall i :: 0 <= i < |applied| ==> Agree(expected[i], applied[i])
        case HashMismatch =>
          && WellFormed(applied) && same && !moved
          && exists i: nat :: FirstApart(expected, applied, i) && !SameDigest(expected[i].hash, applied[i].hash)
        case TimestampMismatch =>
          && WellFormed(applied) && same && !moved
          && exists i: nat :: FirstApart(expected, applied, i) && SameDigest(expected[i].hash, applied[i].hash)
        case _ => false
  {
    hide WellFormed, SameHash, SameDigest, Matches, FirstMismatch, FirstApart, Agree, ExpectedHashes, AppliedHashes;
    if |expected| == |applied| { ApartExactly(expected, applied); }
    OkIffWellFormedAndMatching(expected, applied);
  }

  lemma ApartExactly(expected: seq<Expected>, applied: seq<Applied>)
    requires |expected| == |applied|
    ensures Matches(expected, applied) <==> forall i :: 0 <= i < |applied| ==> Agree(expected[i], applied[i])
    ensures forall i: nat :: FirstMismatch(expected, applied, i) <==> FirstApart(expected, applied, i)
    ensures forall i: nat :: FirstApart(expected, applied, i) ==>
              && i < |expected| && !Matches(expected, applied)
              && (SameHash(expected[i], applied[i]) <==> SameDigest(expected[i].hash, applied[i].hash))
  {
    forall i | 0 <= i < |applied|
      ensures SameHash(expected[i], applied[i]) <==> SameDigest(expected[i].hash, applied[i].hash)
    {
      AgreeExactly(expected[i], applied[i]);
    }
    hide SameHash, SameDigest;
  }

  // ---- The whole table ----------------------------------------------------

  /** A ledger is fine exactly when its rows are the journal's, complete, in order, each with its time. */
  lemma LedgerAgreesExactly(expected: seq<Expected>, table: seq<LedgerRow>)
    ensures LedgerAgrees(expected, table) <==>
      && |table| == |expected|
      && (forall i :: 0 <= i < |table| ==>
            && table[i].id > 0 && table[i].createdAt == Some(expected[i].createdAt)
            && table[i].hash.Some? && SameDigest(expected[i].hash, table[i].hash.value)
            && |table[i].hash.value| == 64 && forall c <- table[i].hash.value :: c in "0123456789abcdefABCDEF")
      && (forall i, j :: 0 <= i < j < |table| ==> table[i].id < table[j].id)
      && (forall i, j :: 0 <= i < j < |table| ==> !SameDigest(table[i].hash.value, table[j].hash.value))
  {
    if AllParsable(table) {
      var rows := Parsed(table);
      WellFormedExactly(rows);
      if |expected| == |rows| { ApartExactly(expected, rows); }
    }
    hide SameDigest, WellFormed;
  }
}
