/** The per-player one-time-passcode table of the football OTP service and
    its three handlers: generate (issue a new code and mail it), validate
    (check a submitted code against the stored one, counting failed
    guesses) and get (read the stored record back).

    The table is keyed by player id, so a player has at most one record.
    Time is an integer number of seconds; the wall clock, the random code
    and the outcome of sending the e-mail are parameters. */
module OtpApi {
  import opened Decimal

  /** `timedelta(minutes=5)`, in seconds. */
  const ValidityWindow: int := 300

  /** A record whose counter has reached this many failed guesses is locked. */
  const MaxRetries: nat := 3

  /** The values `randint(100000, 999999)` can draw (both ends included). */
  type Code = n: int | 100000 <= n <= 999999 witness 100000

  /** One row of the `otp` table, without its key. */
  datatype OtpRecord = OtpRecord(email: string, otp: string, expiresAt: int, retryCount: nat)

  /** What a handler reports; the HTTP layer turns these into 200 (Ok),
      404 (NotFound), 403 (Locked), 401 (Mismatch), 400 (Expired) and
      500 (DeliveryFailed). */
  datatype Status = Ok | NotFound | Locked | Mismatch | Expired | DeliveryFailed

  datatype Option<T> = None | Some(value: T)

  /** The `otp` table: player id to record. */
  type Store = map<string, OtpRecord>

  /** The outcome of one validation and the table it leaves behind. */
  datatype Attempt = Attempt(status: Status, store: Store)

  /** The passcode text the generator stores and mails: the decimal text of
      the drawn number, which is six digits without a leading zero. */
  function CodeText(code: Code): (s: string)
    ensures |s| == 6 && AllDigits(s) && s[0] != '0'
    ensures ValueOf(s) == code
  {
    assert Pow10(5) == 100000 && Pow10(6) == 1000000;
    ToDecimalLength(code, 6);
    ValueOfToDecimal(code);
    ToDecimal(code)
  }

  /** A submitted string equals the stored text of `code` exactly when it is
      six digits whose value is `code`; any other spelling of the same number
      (a leading zero, a sign, a space) does not match. */
  lemma SubmittedMatchesCode(code: Code, submitted: string)
    ensures submitted == CodeText(code) <==>
            |submitted| == 6 && AllDigits(submitted) && ValueOf(submitted) == code
  {
    assert Pow10(5) == 100000;
    if |submitted| == 6 && AllDigits(submitted) && ValueOf(submitted) == code {
      if submitted[0] == '0' {
        LeadingZeroBound(submitted);
        assert false;
      }
      ToDecimalUnique(code, submitted);
    }
  }

  /** The row `generate_otp` inserts: the given e-mail and code, an expiry
      five minutes after `now` and no failed guesses. */
  function FreshRecord(email: string, code: Code, now: int): OtpRecord {
    OtpRecord(email, CodeText(code), now + ValidityWindow, 0)
  }

  /** The table after `generate_otp`: any row of `playerId` is deleted and the
      fresh row is added in its place; no other row is touched. */
  function IssueStore(s: Store, playerId: string, email: string, code: Code, now: int): (t: Store)
    ensures t.Keys == s.Keys + {playerId}
    ensures playerId in t && t[playerId] == FreshRecord(email, code, now)
    ensures forall p :: p in s && p != playerId ==> t[p] == s[p]
  {
    (s - {playerId})[playerId := FreshRecord(email, code, now)]
  }

  /** What `validate_otp` answers for a stored record (if any): the first of
      its checks that fails decides -- no record, too many failed guesses,
      wrong e-mail or code, then expiry (strictly after `expiresAt`). */
  function Verdict(stored: Option<OtpRecord>, email: string, submitted: string, now: int): Status {
    match stored
    case None => NotFound
    case Some(r) =>
      if r.retryCount >= MaxRetries then Locked
      else if r.email != email || r.otp != submitted then Mismatch
      else if now > r.expiresAt then Expired
      else Ok
  }

  /** The failed-guess counter after a validation with the given outcome:
      one more after a mismatch, zero after a success, unchanged otherwise. */
  function CountAfter(status: Status, count: nat): nat {
    match status
    case Mismatch => count + 1
    case Ok => 0
    case _ => count
  }

  function Lookup(s: Store, playerId: string): Option<OtpRecord> {
    if playerId in s then Some(s[playerId]) else None
  }

  /** One call of `validate_otp` against table `s`.  Only the failed-guess
      counter of `playerId` can change, and a counter that is within the
      limit stays within it. */
  function ValidateStep(s: Store, playerId: string, email: string, submitted: string, now: int): (a: Attempt)
    ensures a.status != DeliveryFailed
    ensures a.store.Keys == s.Keys
    ensures forall p :: p in s && p != playerId ==> a.store[p] == s[p]
    ensures playerId in s ==>
              a.store[playerId] == s[playerId].(retryCount := a.store[playerId].retryCount)
    ensures playerId in s && s[playerId].retryCount <= MaxRetries ==>
              a.store[playerId].retryCount <= MaxRetries
    ensures a.status == Ok ==>
              playerId in s && s[playerId].email == email && s[playerId].otp == submitted &&
              now <= s[playerId].expiresAt && a.store[playerId].retryCount == 0
  {
    var status := Verdict(Lookup(s, playerId), email, submitted, now);
    if playerId in s then
      var r := s[playerId];
      Attempt(status, s[playerId := r.(retryCount := CountAfter(status, r.retryCount))])
    else
      Attempt(status, s)
  }

  /** No record has more failed guesses than the lock-out limit. */
  predicate CountsBounded(s: Store) {
    forall p :: p in s ==> s[p].retryCount <= MaxRetries
  }

  /** The `otp` table as the three handlers update it in place. */
  class OtpTable {
    var records: Store

    /** The table invariant the handlers keep: no counter exceeds the limit. */
    ghost predicate Valid()
      reads this
    {
      CountsBounded(records)
    }

    /** A freshly created, empty table. */
    constructor ()
      ensures Valid() && records == map[]
    {
      records := map[];
    }

    /** `generate_otp`: replace the player's row by a fresh one, commit, then
        send the e-mail.  `code` is the number drawn at random, `now` the
        clock reading and `delivered` whether the mail client accepted the
        message.  A failed delivery is reported, but the new row stays. */
    method Generate(playerId: string, email: string, code: Code, now: int, delivered: bool)
      returns (status: Status)
      requires Valid()
      modifies this
      ensures Valid()
      ensures records == IssueStore(old(records), playerId, email, code, now)
      ensures status == (if delivered then Ok else DeliveryFailed)
    {
      var otp := CodeText(code);
      var expiry := now + ValidityWindow;
      records := records - {playerId};
      records := records[playerId := OtpRecord(email, otp, expiry, 0)];
      if delivered {
        status := Ok;
      } else {
        status := DeliveryFailed;
      }
    }

    /** `validate_otp`: the checks in the handler's order, updating the
        failed-guess counter in place on a mismatch or a success. */
    method Validate(playerId: string, email: string, submitted: string, now: int)
      returns (status: Status)
      requires Valid()
      modifies this
      ensures Valid()
      ensures Attempt(status, records) == ValidateStep(old(records), playerId, email, submitted, now)
    {
      if playerId !in records {
        return NotFound;
      }
      var record := records[playerId];
      if record.retryCount >= MaxRetries {
        return Locked;
      }
      if record.email != email || record.otp != submitted {
        records := records[playerId := record.(retryCount := record.retryCount + 1)];
        return Mismatch;
      }
      if now > record.expiresAt {
        return Expired;
      }
      records := records[playerId := record.(retryCount := 0)];
      return Ok;
    }

    /** `get_otp`: the stored row of the player, or NotFound; reads only. */
    method Peek(playerId: string) returns (status: Status, found: Option<OtpRecord>)
      ensures status == Ok || status == NotFound
      ensures status == Ok <==> playerId in records
      ensures found == Lookup(records, playerId)
    {
      if playerId !in records {
        return NotFound, None;
      }
      return Ok, Some(records[playerId]);
    }
  }
}
