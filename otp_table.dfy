/** The `otp_verifications` table and the statements the auth handlers run
    against it. The table is a sequence of rows in insertion order. */
module OtpTable {
  import opened Outcomes
  import Validation

  /** `10 * 60 * 1000`: a code is valid for ten minutes of the millisecond clock. */
  const OtpLifetimeMs: int := 600000

  /** One row: `(id, email, otp, expires_at, verified, created_at)`. */
  datatype OtpRow = OtpRow(id: nat, email: string, otp: string, expiresAt: int, verified: bool, createdAt: int)

  /** The `verified` condition of a lookup: `= FALSE` (verify-otp), `= TRUE`
      (signup), or none at all (reset-password). */
  datatype FlagFilter = OnlyUnverified | OnlyVerified | AnyFlag

  predicate Selects(row: OtpRow, email: string, otp: string, flag: FlagFilter) {
    && row.email == email
    && row.otp == otp
    && match flag
       case OnlyUnverified => !row.verified
       case OnlyVerified => row.verified
       case AnyFlag => true
  }

  /** `SELECT * ... WHERE email = ? AND otp = ? [AND verified = ...]
      ORDER BY created_at DESC LIMIT 1`: a selected row created no earlier than
      any other selected row, or none. The query leaves a tie open; this
      definition then picks the row inserted last, which the contract does not
      promise. */
  function Latest(rows: seq<OtpRow>, email: string, otp: string, flag: FlagFilter): (r: Option<OtpRow>)
    ensures r.Some? ==> r.value in rows && Selects(r.value, email, otp, flag)
    ensures r.Some? ==> forall x :: x in rows && Selects(x, email, otp, flag) ==> x.createdAt <= r.value.createdAt
    ensures r.None? <==> forall x :: x in rows ==> !Selects(x, email, otp, flag)
  {
    if rows == [] then None
    else
      var later := Latest(rows[1..], email, otp, flag);
      if Selects(rows[0], email, otp, flag) && (later.None? || later.value.createdAt < rows[0].createdAt)
      then Some(rows[0])
      else later
  }

  /** `new Date() > new Date(otpRecord.expires_at)`: strictly after the expiry instant. */
  predicate Expired(row: OtpRow, now: int) {
    now > row.expiresAt
  }

  /** `DELETE FROM otp_verifications WHERE email = ?`. */
  function WithoutEmail(rows: seq<OtpRow>, email: string): (r: seq<OtpRow>)
    ensures forall x :: x in r <==> x in rows && x.email != email
    ensures |r| <= |rows|
  {
    if rows == [] then []
    else (if rows[0].email == email then [] else [rows[0]]) + WithoutEmail(rows[1..], email)
  }

  /** The rows of one email, in table order. */
  function CodesFor(rows: seq<OtpRow>, email: string): (r: seq<OtpRow>)
    ensures forall x :: x in r <==> x in rows && x.email == email
  {
    if rows == [] then []
    else (if rows[0].email == email then [rows[0]] else []) + CodesFor(rows[1..], email)
  }

  /** `UPDATE otp_verifications SET verified = TRUE WHERE id = ?`: the rows
      with that id get the flag set, every other row stays as it was, and no
      row is added or removed. */
  function MarkVerified(rows: seq<OtpRow>, id: nat): (r: seq<OtpRow>)
    ensures |r| == |rows|
    ensures forall i :: 0 <= i < |rows| ==>
      r[i] == if rows[i].id == id then rows[i].(verified := true) else rows[i]
  {
    if rows == [] then []
    else [if rows[0].id == id then rows[0].(verified := true) else rows[0]] + MarkVerified(rows[1..], id)
  }

  /** The DELETE-then-INSERT of send-otp and forgot-password. */
  function Supersede(rows: seq<OtpRow>, newRow: OtpRow): seq<OtpRow> {
    WithoutEmail(rows, newRow.email) + [newRow]
  }

  // The table invariant

  /** Every id is below the auto-increment counter. */
  ghost predicate IdsBelow(rows: seq<OtpRow>, nextId: nat) {
    forall x :: x in rows ==> x.id < nextId
  }

  /** Ids grow in insertion order, so in particular they are distinct. */
  ghost predicate IdsIncreasing(rows: seq<OtpRow>) {
    forall i, j :: 0 <= i < j < |rows| ==> rows[i].id < rows[j].id
  }

  /** Supersession: no email ever has two rows. */
  ghost predicate OneCodePerEmail(rows: seq<OtpRow>) {
    forall email :: |CodesFor(rows, email)| <= 1
  }

  /** Every stored code is one that `generateOTP` can produce. */
  ghost predicate CodesGenerated(rows: seq<OtpRow>) {
    forall x :: x in rows ==> Validation.IsGeneratedCode(x.otp)
  }

  ghost predicate Valid(rows: seq<OtpRow>, nextId: nat) {
    IdsBelow(rows, nextId) && IdsIncreasing(rows) && OneCodePerEmail(rows) && CodesGenerated(rows)
  }

  // Lemmas about the statements

  lemma {:induction false} CodesForAppend(a: seq<OtpRow>, b: seq<OtpRow>, email: string)
    ensures CodesFor(a + b, email) == CodesFor(a, email) + CodesFor(b, email)
  {
    if a == [] {
      assert a + b == b;
    } else {
      assert (a + b)[1..] == a[1..] + b;
      CodesForAppend(a[1..], b, email);
    }
  }

  /** After the DELETE, the email has no rows left. */
  lemma {:induction false} CodesForWithoutSame(rows: seq<OtpRow>, email: string)
    ensures CodesFor(WithoutEmail(rows, email), email) == []
  {
    if rows != [] {
      var head := if rows[0].email == email then [] else [rows[0]];
      CodesForAppend(head, WithoutEmail(rows[1..], email), email);
      CodesForWithoutSame(rows[1..], email);
      assert head != [] ==> head[1..] == [];
    }
  }

  /** The DELETE leaves the rows of every other email as they were, in order. */
  lemma {:induction false} CodesForWithoutOther(rows: seq<OtpRow>, email: string, other: string)
    requires other != email
    ensures CodesFor(WithoutEmail(rows, email), other) == CodesFor(rows, other)
  {
    if rows != [] {
      var head := if rows[0].email == email then [] else [rows[0]];
      CodesForAppend(head, WithoutEmail(rows[1..], email), other);
      CodesForWithoutOther(rows[1..], email, other);
      assert head == [] ==> CodesFor(head, other) == [];
      assert head != [] ==> head[1..] == [];
    }
  }

  /** Supersession: after DELETE-then-INSERT the email has exactly the new
      row, and every other email keeps its rows. */
  lemma SupersedeLeavesOne(rows: seq<OtpRow>, newRow: OtpRow, other: string)
    ensures CodesFor(Supersede(rows, newRow), newRow.email) == [newRow]
    ensures other != newRow.email ==> CodesFor(Supersede(rows, newRow), other) == CodesFor(rows, other)
  {
    var w := WithoutEmail(rows, newRow.email);
    CodesForAppend(w, [newRow], newRow.email);
    CodesForWithoutSame(rows, newRow.email);
    assert [newRow][1..] == [];
    if other != newRow.email {
      CodesForAppend(w, [newRow], other);
      CodesForWithoutOther(rows, newRow.email, other);
    }
  }

  /** The UPDATE neither adds nor removes rows of any email. */
  lemma {:induction false} CodesForMarkVerified(rows: seq<OtpRow>, id: nat, email: string)
    ensures |CodesFor(MarkVerified(rows, id), email)| == |CodesFor(rows, email)|
  {
    if rows != [] {
      var m := MarkVerified(rows, id);
      assert m[1..] == MarkVerified(rows[1..], id);
      CodesForMarkVerified(rows[1..], id, email);
    }
  }

  /** With distinct ids, the UPDATE of verify-otp flips the flag of exactly
      the row it found. */
  lemma MarkVerifiedFlipsOne(rows: seq<OtpRow>, k: nat)
    requires IdsIncreasing(rows) && k < |rows|
    ensures MarkVerified(rows, rows[k].id) == rows[k := rows[k].(verified := true)]
  {
    var id := rows[k].id;
    var m := MarkVerified(rows, id);
    var expected := rows[k := rows[k].(verified := true)];
    forall i | 0 <= i < |rows| ensures m[i] == expected[i] {
      if i < k {
        assert rows[i].id < id;
      } else if k < i {
        assert id < rows[i].id;
      }
    }
  }

  lemma {:induction false} WithoutEmailKeepsIncreasing(rows: seq<OtpRow>, email: string)
    requires IdsIncreasing(rows)
    ensures IdsIncreasing(WithoutEmail(rows, email))
  {
    if rows != [] {
      var tail := WithoutEmail(rows[1..], email);
      assert IdsIncreasing(rows[1..]);
      WithoutEmailKeepsIncreasing(rows[1..], email);
      if rows[0].email != email {
        forall x | x in tail
          ensures rows[0].id < x.id
        {
          assert x in rows[1..];
          var k :| 0 <= k < |rows[1..]| && rows[1..][k] == x;
          assert rows[k + 1] == x;
        }
        PrependKeepsIncreasing(rows[0], tail);
      }
    }
  }

  lemma PrependKeepsIncreasing(x: OtpRow, rest: seq<OtpRow>)
    requires IdsIncreasing(rest)
    requires forall y :: y in rest ==> x.id < y.id
    ensures IdsIncreasing([x] + rest)
  {
    var r := [x] + rest;
    forall i, j | 0 <= i < j < |r|
      ensures r[i].id < r[j].id
    {
      assert r[j] == rest[j - 1];
      if i > 0 {
        assert r[i] == rest[i - 1];
      }
    }
  }

  /** send-otp and forgot-password keep the table valid when the newRow row
      takes the counter's id and holds a generated code. */
  lemma SupersedeKeepsValid(rows: seq<OtpRow>, nextId: nat, newRow: OtpRow)
    requires Valid(rows, nextId)
    requires newRow.id == nextId && Validation.IsGeneratedCode(newRow.otp)
    ensures Valid(Supersede(rows, newRow), nextId + 1)
  {
    var w := WithoutEmail(rows, newRow.email);
    var r := Supersede(rows, newRow);
    WithoutEmailKeepsIncreasing(rows, newRow.email);
    forall i, j | 0 <= i < j < |r| ensures r[i].id < r[j].id {
      if j == |r| - 1 {
        assert r[i] == w[i] && w[i] in w;
      } else {
        assert r[i] == w[i] && r[j] == w[j];
      }
    }
    forall email ensures |CodesFor(r, email)| <= 1 {
      SupersedeLeavesOne(rows, newRow, email);
    }
  }

  /** verify-otp keeps the table valid. */
  lemma MarkVerifiedKeepsValid(rows: seq<OtpRow>, nextId: nat, id: nat)
    requires Valid(rows, nextId)
    ensures Valid(MarkVerified(rows, id), nextId)
  {
    var m := MarkVerified(rows, id);
    forall x | x in m ensures x.id < nextId && Validation.IsGeneratedCode(x.otp) {
      var i :| 0 <= i < |m| && m[i] == x;
      assert rows[i] in rows;
    }
    forall email ensures |CodesFor(m, email)| <= 1 {
      CodesForMarkVerified(rows, id, email);
    }
  }

  /** signup and reset-password keep the table valid. */
  lemma WithoutEmailKeepsValid(rows: seq<OtpRow>, nextId: nat, email: string)
    requires Valid(rows, nextId)
    ensures Valid(WithoutEmail(rows, email), nextId)
  {
    WithoutEmailKeepsIncreasing(rows, email);
    forall other ensures |CodesFor(WithoutEmail(rows, email), other)| <= 1 {
      if other == email {
        CodesForWithoutSame(rows, email);
      } else {
        CodesForWithoutOther(rows, email, other);
      }
    }
  }

  /** Under the invariant, a lookup that can select a row returns that row. */
  lemma LatestIsOnlyRow(rows: seq<OtpRow>, row: OtpRow, flag: FlagFilter)
    requires OneCodePerEmail(rows) && row in rows && Selects(row, row.email, row.otp, flag)
    ensures Latest(rows, row.email, row.otp, flag) == Some(row)
  {
    var found := Latest(rows, row.email, row.otp, flag);
    SelectedIsOnlyRow(rows, row);
    assert found.value in CodesFor(rows, row.email);
  }

  /** Under the invariant, a row selected for an email is that email's only row. */
  lemma SelectedIsOnlyRow(rows: seq<OtpRow>, row: OtpRow)
    requires OneCodePerEmail(rows) && row in rows
    ensures CodesFor(rows, row.email) == [row]
  {
    var c := CodesFor(rows, row.email);
    assert row in c;
    assert |c| <= 1;
  }
}
