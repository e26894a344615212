/** Properties of the OTP table that relate several handler calls, or that
    pin down one outcome of `validate_otp` for every input that leads to it. */
module OtpProperties {
  import opened Decimal
  import opened OtpApi

  /** One request to the service, with the clock reading and the random draw
      it sees. */
  datatype Request =
    | IssueRequest(playerId: string, email: string, code: Code, now: int)
    | CheckRequest(playerId: string, email: string, submitted: string, now: int)
    | ViewRequest(playerId: string)

  /** The table after one request (a delivery failure does not matter here:
      the row is committed before the e-mail is sent). */
  function Apply(s: Store, req: Request): Store {
    match req
    case IssueRequest(p, e, c, now) => IssueStore(s, p, e, c, now)
    case CheckRequest(p, e, sub, now) => ValidateStep(s, p, e, sub, now).store
    case ViewRequest(_) => s
  }

  /** The table after the requests, served one after another. */
  function Run(s: Store, reqs: seq<Request>): Store
    decreases |reqs|
  {
    if reqs == [] then s else Run(Apply(s, reqs[0]), reqs[1..])
  }

  /** Every request keeps the failed-guess counters within the limit. */
  lemma ApplyKeepsCountsBounded(s: Store, req: Request)
    requires CountsBounded(s)
    ensures CountsBounded(Apply(s, req))
  {
    match req
    case IssueRequest(p, e, c, now) =>
    case CheckRequest(p, e, sub, now) =>
      var t := ValidateStep(s, p, e, sub, now).store;
      forall q | q in t ensures t[q].retryCount <= MaxRetries {
        if q == p {
          assert t[q].retryCount <= MaxRetries;
        }
      }
    case ViewRequest(_) =>
  }

  /** Whatever requests arrive, in whatever order, no counter ever exceeds
      the limit once it starts within it -- in particular starting from the
      empty table, since every record starts at zero. */
  lemma {:induction false} RunKeepsCountsBounded(s: Store, reqs: seq<Request>)
    requires CountsBounded(s)
    ensures CountsBounded(Run(s, reqs))
    decreases |reqs|
  {
    if reqs != [] {
      ApplyKeepsCountsBounded(s, reqs[0]);
      RunKeepsCountsBounded(Apply(s, reqs[0]), reqs[1..]);
    }
  }

  lemma CountsBoundedFromEmpty(reqs: seq<Request>)
    ensures CountsBounded(Run(map[], reqs))
  {
    RunKeepsCountsBounded(map[], reqs);
  }

  /** Validation never creates or deletes a row; only generation adds one. */
  lemma {:induction false} RunKeys(s: Store, reqs: seq<Request>)
    ensures s.Keys <= Run(s, reqs).Keys
    ensures forall p :: p in Run(s, reqs) && p !in s ==>
              exists i :: 0 <= i < |reqs| && reqs[i].IssueRequest? && reqs[i].playerId == p
    decreases |reqs|
  {
    if reqs != [] {
      var t := Apply(s, reqs[0]);
      RunKeys(t, reqs[1..]);
      forall p | p in Run(s, reqs) && p !in s
        ensures exists i :: 0 <= i < |reqs| && reqs[i].IssueRequest? && reqs[i].playerId == p
      {
        if p in t {
          assert reqs[0].IssueRequest? && reqs[0].playerId == p;
        } else {
          var j :| 0 <= j < |reqs[1..]| && reqs[1..][j].IssueRequest? && reqs[1..][j].playerId == p;
          assert reqs[j + 1] == reqs[1..][j];
        }
      }
    }
  }

  // ---- generate_otp -------------------------------------------------------

  /** Generation always succeeds in replacing the row, whatever was stored
      before (a locked, expired or already used record included): the player
      then has the fresh record and nothing else. */
  lemma IssueReplaces(s: Store, playerId: string, email: string, code: Code, now: int)
    ensures var t := IssueStore(s, playerId, email, code, now);
            t[playerId].email == email && t[playerId].otp == CodeText(code) &&
            t[playerId].expiresAt == now + 300 && t[playerId].retryCount == 0 &&
            |t[playerId].otp| == 6 && 100000 <= ValueOf(t[playerId].otp) <= 999999
  {
  }

  /** Two generations in a row for the same player leave only the second. */
  lemma IssueTwice(s: Store, playerId: string, e1: string, c1: Code, t1: int, e2: string, c2: Code, t2: int)
    ensures IssueStore(IssueStore(s, playerId, e1, c1, t1), playerId, e2, c2, t2) ==
            IssueStore(s, playerId, e2, c2, t2)
  {
  }

  // ---- validate_otp: one outcome at a time ---------------------------------

  /** No row: NotFound, and the table is unchanged. */
  lemma ValidateNotFound(s: Store, playerId: string, email: string, submitted: string, now: int)
    requires playerId !in s
    ensures ValidateStep(s, playerId, email, submitted, now) == Attempt(NotFound, s)
  {
  }

  /** Three failed guesses lock the record: Locked and nothing changes, even
      for the right e-mail and code before expiry. */
  lemma ValidateLocked(s: Store, playerId: string, email: string, submitted: string, now: int)
    requires playerId in s && s[playerId].retryCount >= MaxRetries
    ensures ValidateStep(s, playerId, email, submitted, now) == Attempt(Locked, s)
  {
  }

  /** A wrong e-mail or code below the limit: Mismatch, the counter rises by
      exactly one and nothing else changes -- expired or not. */
  lemma ValidateMismatch(s: Store, playerId: string, email: string, submitted: string, now: int)
    requires playerId in s && s[playerId].retryCount < MaxRetries
    requires s[playerId].email != email || s[playerId].otp != submitted
    ensures ValidateStep(s, playerId, email, submitted, now) ==
            Attempt(Mismatch, s[playerId := s[playerId].(retryCount := s[playerId].retryCount + 1)])
  {
  }

  /** The right e-mail and code after expiry: Expired, and the counter is not
      incremented. */
  lemma ValidateExpired(s: Store, playerId: string, email: string, submitted: string, now: int)
    requires playerId in s && s[playerId].retryCount < MaxRetries
    requires s[playerId].email == email && s[playerId].otp == submitted
    requires now > s[playerId].expiresAt
    ensures ValidateStep(s, playerId, email, submitted, now) == Attempt(Expired, s)
  {
  }

  /** Success exactly when the record exists, is not locked, matches, and
      `now` is not past the expiry (the expiry instant itself still counts);
      the row keeps its e-mail, code and expiry and its counter becomes 0. */
  lemma ValidateOk(s: Store, playerId: string, email: string, submitted: string, now: int)
    ensures ValidateStep(s, playerId, email, submitted, now).status == Ok <==>
            playerId in s && s[playerId].retryCount < MaxRetries &&
            s[playerId].email == email && s[playerId].otp == submitted &&
            now <= s[playerId].expiresAt
    ensures ValidateStep(s, playerId, email, submitted, now).status == Ok ==>
            ValidateStep(s, playerId, email, submitted, now).store ==
            s[playerId := s[playerId].(retryCount := 0)]
  {
  }

  /** A success does not consume the code: validating again with the same
      input succeeds again and changes nothing more. */
  lemma ValidateOkRepeats(s: Store, playerId: string, email: string, submitted: string, now: int, later: int)
    requires ValidateStep(s, playerId, email, submitted, now).status == Ok
    requires now <= later <= s[playerId].expiresAt
    ensures var a := ValidateStep(s, playerId, email, submitted, now);
            ValidateStep(a.store, playerId, email, submitted, later) == a
  {
    var a := ValidateStep(s, playerId, email, submitted, now);
    assert a.store[playerId] == s[playerId].(retryCount := 0);
  }

  // ---- generate then validate ----------------------------------------------

  /** Right after generation the mailed code is accepted up to and including
      the expiry instant `now + 300`, and reported Expired after it; either
      way the row stays as generated. */
  lemma IssueThenValidate(s: Store, playerId: string, email: string, code: Code, now: int, later: int)
    ensures var t := IssueStore(s, playerId, email, code, now);
            ValidateStep(t, playerId, email, CodeText(code), later) ==
            Attempt(if later <= now + ValidityWindow then Ok else Expired, t)
  {
    var t := IssueStore(s, playerId, email, code, now);
    assert t[playerId := t[playerId].(retryCount := 0)] == t;
  }

  /** Every request in `reqs` is a validation for `playerId` that gets the
      e-mail or the code of `record` wrong. */
  predicate WrongGuesses(reqs: seq<Request>, playerId: string, record: OtpRecord) {
    forall i :: 0 <= i < |reqs| ==>
      reqs[i].CheckRequest? && reqs[i].playerId == playerId &&
      (reqs[i].email != record.email || reqs[i].submitted != record.otp)
  }

  /** Wrong guesses below the limit each add exactly one to the counter and
      change nothing else. */
  lemma {:induction false} WrongGuessesAccumulate(s: Store, playerId: string, reqs: seq<Request>)
    requires playerId in s && WrongGuesses(reqs, playerId, s[playerId])
    requires s[playerId].retryCount + |reqs| <= MaxRetries
    ensures Run(s, reqs) ==
            s[playerId := s[playerId].(retryCount := s[playerId].retryCount + |reqs|)]
    decreases |reqs|
  {
    if reqs != [] {
      var r := s[playerId];
      var t := Apply(s, reqs[0]);
      ValidateMismatch(s, playerId, reqs[0].email, reqs[0].submitted, reqs[0].now);
      assert t == s[playerId := r.(retryCount := r.retryCount + 1)];
      assert WrongGuesses(reqs[1..], playerId, t[playerId]) by {
        forall i | 0 <= i < |reqs[1..]|
          ensures reqs[1..][i].CheckRequest? && reqs[1..][i].playerId == playerId &&
                  (reqs[1..][i].email != t[playerId].email || reqs[1..][i].submitted != t[playerId].otp)
        {
          assert reqs[1..][i] == reqs[i + 1];
        }
      }
      WrongGuessesAccumulate(t, playerId, reqs[1..]);
      assert t[playerId := t[playerId].(retryCount := t[playerId].retryCount + |reqs[1..]|)] ==
             s[playerId := r.(retryCount := r.retryCount + |reqs|)];
    }
  }

  /** Brute-force lock-out: after a fresh generation and three wrong guesses,
      even the right code is refused with Locked, at any time, until the
      player generates again. */
  lemma LockedAfterThreeWrongGuesses(s: Store, playerId: string, email: string, code: Code, now: int,
                                     reqs: seq<Request>, later: int)
    requires |reqs| == 3
    requires WrongGuesses(reqs, playerId, FreshRecord(email, code, now))
    ensures ValidateStep(Run(IssueStore(s, playerId, email, code, now), reqs),
                         playerId, email, CodeText(code), later).status == Locked
  {
    var t := IssueStore(s, playerId, email, code, now);
    WrongGuessesAccumulate(t, playerId, reqs);
  }

  // ---- a client of the class ------------------------------------------------

  /** A session against a fresh table: generate (the mail fails, the code is
      stored anyway), read the record back, guess wrong three times, then
      submit the right code in time -- Locked; generate again with a new
      code `next`, and that code is accepted, and accepted a second time. */
  method LockoutSession(playerId: string, email: string, code: Code, next: Code, wrong: string, now: int)
    returns (issued: Status, peeked: Status, third: Status, locked: Status, reissued: Status,
             first: Status, again: Status)
    requires wrong != CodeText(code)
    ensures issued == DeliveryFailed && peeked == Ok && third == Mismatch && locked == Locked
    ensures reissued == Ok && first == Ok && again == Ok
  {
    var table := new OtpTable();
    issued := table.Generate(playerId, email, code, now, false);
    var found;
    peeked, found := table.Peek(playerId);
    assert found == Some(FreshRecord(email, code, now));
    var g1 := table.Validate(playerId, email, wrong, now);
    var g2 := table.Validate(playerId, email, wrong, now + 1);
    third := table.Validate(playerId, email, wrong, now + 2);
    locked := table.Validate(playerId, email, CodeText(code), now + 3);
    reissued := table.Generate(playerId, email, next, now + 10, true);
    first := table.Validate(playerId, email, CodeText(next), now + 10 + ValidityWindow);
    again := table.Validate(playerId, email, CodeText(next), now + 10 + ValidityWindow);
  }
}
