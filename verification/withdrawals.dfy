/** The withdrawal routes (src/routes/withdrawalRoutes.ts) over the withdrawal schema
    (src/models/Withdrawal.ts): creation, the caller's own listing and the admin status
    update. */
module Withdrawals {
  import opened Outcome
  import opened Collection
  import opened Records

  /** The characters `String.prototype.trim` removes: the ECMAScript white space and line
      terminators. */
  predicate IsSpace(c: char) {
    var n := c as int;
    || 0x09 <= n <= 0x0D || n == 0x20 || n == 0xA0 || n == 0x1680
    || 0x2000 <= n <= 0x200A || n == 0x2028 || n == 0x2029 || n == 0x202F || n == 0x205F
    || n == 0x3000 || n == 0xFEFF
  }

  /** The number of white-space characters the text starts with. */
  function Leading(s: string): (n: nat)
    ensures n <= |s|
    ensures forall k :: 0 <= k < n ==> IsSpace(s[k])
    ensures n < |s| ==> !IsSpace(s[n])
  {
    if |s| == 0 || !IsSpace(s[0]) then 0 else 1 + Leading(s[1..])
  }

  /** The number of white-space characters the text ends with. */
  function Trailing(s: string): (n: nat)
    ensures n <= |s|
    ensures forall k :: |s| - n <= k < |s| ==> IsSpace(s[k])
    ensures n < |s| ==> !IsSpace(s[|s| - n - 1])
  {
    if |s| == 0 || !IsSpace(s[|s| - 1]) then 0 else 1 + Trailing(s[..|s| - 1])
  }

  /** `trim()`: the text without the white space at either end. */
  function Trim(s: string): (r: string)
    ensures exists i, j :: (0 <= i <= j <= |s| && r == s[i..j]
                            && (forall k :: 0 <= k < i ==> IsSpace(s[k]))
                            && (forall k :: j <= k < |s| ==> IsSpace(s[k])))
    ensures |r| > 0 ==> !IsSpace(r[0]) && !IsSpace(r[|r| - 1])
  {
    var t := s[Leading(s)..];
    var r := t[..|t| - Trailing(t)];
    assert r == s[Leading(s)..Leading(s) + |r|];
    r
  }

  /** A text trims to nothing exactly when it is all white space. */
  lemma TrimEmpty(s: string)
    ensures Trim(s) == "" <==> forall k :: 0 <= k < |s| ==> IsSpace(s[k])
  {
    var t := s[Leading(s)..];
    if Leading(s) < |s| {
      assert !IsSpace(t[0]);
    }
  }

  /** Trimming twice is trimming once. */
  lemma TrimIdempotent(s: string)
    ensures Trim(Trim(s)) == Trim(s)
  {
    var r := Trim(s);
    if |r| > 0 {
      assert Leading(r) == 0;
      assert Trailing(r) == 0;
    }
  }

  /** The smallest amount, in roubles, a request may ask for. */
  const MinimumAmount: real := 1000.0

  /** What the route answers 400 to: a falsy amount or contact, or an amount under the
      minimum. A missing amount is 0.0 and a missing contact is "". */
  predicate Refused(amount: real, contact: string) {
    amount == 0.0 || contact == "" || amount < MinimumAmount
  }

  /** The record the route builds for the caller. */
  function NewRequest(withdrawalId: string, caller: UserId, amount: real, contact: string, now: int): Withdrawal {
    Withdrawal(withdrawalId, caller, amount, Trim(contact), New, now)
  }

  /** `POST /`: 400 when refused; otherwise a request with status new and the trimmed contact
      is saved for the caller, or 500 when the schema refuses it (a contact of white space
      only, an empty or a taken id). No user is read or changed, so no balance is debited. */
  function CreateWithdrawal(db: Db, caller: UserId, amount: real, contact: string,
                            withdrawalId: string, now: int): (r: (Result<string>, Db))
    ensures r.1.users == db.users && r.1.orders == db.orders
    ensures r.0 == Fail(BadRequest) <==> Refused(amount, contact)
    ensures r.0.Ok? <==> !Refused(amount, contact)
                         && WithdrawalSaveable(NewRequest(withdrawalId, caller, amount, contact, now), db.withdrawals)
    ensures r.0.Fail? ==> r.1 == db
    ensures r.0.Ok? ==> (r.0.value == withdrawalId
                         && r.1.withdrawals == db.withdrawals + [Withdrawal(withdrawalId, caller, amount, Trim(contact), New, now)])
  {
    if amount == 0.0 || contact == "" then (Fail(BadRequest), db)
    else if amount < MinimumAmount then (Fail(BadRequest), db)
    else
      var w := NewRequest(withdrawalId, caller, amount, contact, now);
      if WithdrawalSaveable(w, db.withdrawals) then (Ok(withdrawalId), db.(withdrawals := db.withdrawals + [w]))
      else (Fail(ServerError), db)
  }

  /** The minimum itself is accepted, with any contact that is not blank and a fresh id. */
  lemma MinimumAccepted(db: Db, caller: UserId, contact: string, withdrawalId: string, now: int)
    requires withdrawalId != "" && Trim(contact) != ""
    requires forall i :: 0 <= i < |db.withdrawals| ==> db.withdrawals[i].withdrawalId != withdrawalId
    ensures CreateWithdrawal(db, caller, 1000.0, contact, withdrawalId, now).0 == Ok(withdrawalId)
  {
  }

  /** A contact of white space only passes the falsy check and fails the save. */
  lemma BlankContactFails(db: Db, caller: UserId, amount: real, contact: string, withdrawalId: string, now: int)
    requires amount >= MinimumAmount && contact != ""
    requires forall k :: 0 <= k < |contact| ==> IsSpace(contact[k])
    ensures CreateWithdrawal(db, caller, amount, contact, withdrawalId, now) == (Fail(ServerError), db)
  {
    TrimEmpty(contact);
  }

  /** Creation keeps the withdrawal ids unique. */
  lemma CreateKeepsIdsUnique(db: Db, caller: UserId, amount: real, contact: string, withdrawalId: string, now: int)
    requires UniqueIds(db.withdrawals, WithdrawalIdOf)
    ensures UniqueIds(CreateWithdrawal(db, caller, amount, contact, withdrawalId, now).1.withdrawals, WithdrawalIdOf)
  {
    var w := NewRequest(withdrawalId, caller, amount, contact, now);
    if !Refused(amount, contact) && WithdrawalSaveable(w, db.withdrawals) {
      SaveKeepsWithdrawalIdsUnique(w, db.withdrawals);
    }
  }

  /** `GET /my`: the caller's requests, newest first. */
  function ListMine(db: Db, caller: UserId): (r: seq<Withdrawal>)
    ensures multiset(r) == multiset(Select(db.withdrawals, (x: Withdrawal) => x.user == caller))
    ensures NewestFirst(r, WithdrawalCreatedAt)
  {
    SortNewest(Select(db.withdrawals, (x: Withdrawal) => x.user == caller), WithdrawalCreatedAt)
  }

  /** A request is listed exactly when it is stored and belongs to the caller. */
  lemma ListMineMembers(db: Db, caller: UserId, w: Withdrawal)
    ensures w in ListMine(db, caller) <==> w in db.withdrawals && w.user == caller
  {
    var r := ListMine(db, caller);
    assert w in r <==> multiset(r)[w] > 0;
    SelectMembers(db.withdrawals, (x: Withdrawal) => x.user == caller, w);
  }

  /** A request just created is in the caller's listing. */
  lemma CreatedIsListed(db: Db, caller: UserId, amount: real, contact: string, withdrawalId: string, now: int)
    requires CreateWithdrawal(db, caller, amount, contact, withdrawalId, now).0.Ok?
    ensures var db1 := CreateWithdrawal(db, caller, amount, contact, withdrawalId, now).1;
      Withdrawal(withdrawalId, caller, amount, Trim(contact), New, now) in ListMine(db1, caller)
  {
    var db1 := CreateWithdrawal(db, caller, amount, contact, withdrawalId, now).1;
    var w := Withdrawal(withdrawalId, caller, amount, Trim(contact), New, now);
    assert db1.withdrawals[|db.withdrawals|] == w;
    ListMineMembers(db1, caller, w);
  }

  function WithWithdrawalStatus(w: Withdrawal, st: Status): Withdrawal {
    w.(status := st)
  }

  /** `PATCH /:withdrawalId/status`: 400 for a value outside the four, checked before the
      lookup; 404 for an unknown id; otherwise the first request with the id takes the
      status and is saved again: a request the schema's required-field check refuses (an
      empty contact) answers 500 and nothing changes. No user and no order changes. */
  function UpdateWithdrawalStatus(db: Db, withdrawalId: string, status: string): (r: (Result<Withdrawal>, Db))
    ensures r.1.users == db.users && r.1.orders == db.orders
    ensures r.0.Fail? ==> r.1 == db
    ensures ParseStatus(status).None? ==> r.0 == Fail(BadRequest)
    ensures (ParseStatus(status).Some? && forall j :: 0 <= j < |db.withdrawals| ==> db.withdrawals[j].withdrawalId != withdrawalId)
            ==> r.0 == Fail(NotFound)
    ensures r.0 == Fail(ServerError) <==> (ParseStatus(status).Some?
                                           && exists i :: (0 <= i < |db.withdrawals| && db.withdrawals[i].withdrawalId == withdrawalId
                                                           && (forall j :: 0 <= j < i ==> db.withdrawals[j].withdrawalId != withdrawalId)
                                                           && !WithdrawalValid(db.withdrawals[i])))
    ensures r.0.Ok? <==> (ParseStatus(status).Some?
                          && exists i :: (0 <= i < |db.withdrawals| && db.withdrawals[i].withdrawalId == withdrawalId
                                          && (forall j :: 0 <= j < i ==> db.withdrawals[j].withdrawalId != withdrawalId)
                                          && WithdrawalValid(db.withdrawals[i])))
    ensures r.0.Ok? ==> exists i :: (0 <= i < |db.withdrawals| && db.withdrawals[i].withdrawalId == withdrawalId
                                     && r.0.value == db.withdrawals[i].(status := ParseStatus(status).value)
                                     && r.1.withdrawals == db.withdrawals[i := r.0.value])
  {
    var (res, withdrawals) := UpdateStatus(db.withdrawals, withdrawalId, status, WithdrawalIdOf,
                                           WithWithdrawalStatus, WithdrawalValid);
    (res, db.(withdrawals := withdrawals))
  }

  /** Every request `POST /` stores passes the re-save check, so its status can be changed. */
  lemma CreatedCanChangeStatus(db: Db, caller: UserId, amount: real, contact: string,
                               withdrawalId: string, now: int, status: string)
    requires CreateWithdrawal(db, caller, amount, contact, withdrawalId, now).0.Ok?
    requires ParseStatus(status).Some?
    ensures var db1 := CreateWithdrawal(db, caller, amount, contact, withdrawalId, now).1;
      UpdateWithdrawalStatus(db1, withdrawalId, status).0.Ok?
  {
    var db1 := CreateWithdrawal(db, caller, amount, contact, withdrawalId, now).1;
    var n := |db.withdrawals|;
    assert db1.withdrawals[n].withdrawalId == withdrawalId && WithdrawalValid(db1.withdrawals[n]);
    forall j | 0 <= j < n
      ensures db1.withdrawals[j].withdrawalId != withdrawalId
    {
      assert db1.withdrawals[j] == db.withdrawals[j];
    }
  }

  /** Repeating a status update changes nothing more. */
  lemma UpdateWithdrawalStatusIdempotent(db: Db, withdrawalId: string, status: string)
    ensures var db1 := UpdateWithdrawalStatus(db, withdrawalId, status).1;
      UpdateWithdrawalStatus(db1, withdrawalId, status).1 == db1
  {
    UpdateStatusIdempotent(db.withdrawals, withdrawalId, status, WithdrawalIdOf, WithWithdrawalStatus, WithdrawalValid);
  }
}
