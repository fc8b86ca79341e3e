/** The `solana_grid_game` program: a whitelist-gated escrow with five deposit
    slots and an expiry time. `initialize` creates the `SolHolder` account;
    `deposit` checks, in this order, that the round has not expired, that the
    caller is whitelisted and that the caller's slot is still empty, then
    transfers the lamports and only afterwards records the deposit.

    The clock reading (`Clock::get()?.unix_timestamp`) is the parameter `now`,
    and the outcome of the system-program transfer is the parameter
    `transferOk`. */
module SolanaGridGame {
  import opened Escrow

  /** The program's own error codes. */
  datatype ErrorCode = UnauthorizedDepositAddress | AlreadyDeposited | FundingTimeExpired

  /** Every way a `deposit` instruction can fail. */
  datatype Failure =
    | Program(code: ErrorCode)
    | TransferFailed       // the system-program transfer returned an error
    | ArithmeticOverflow   // `+=` on `total_collected` (u64) or `depositors_count` (u8) overflowed

  /** The contents of a `SolHolder` account, as a value. */
  datatype Record = Record(
    authority: Pubkey,
    allowedDepositors: seq<Pubkey>,
    deposits: seq<U64>,
    totalCollected: U64,
    depositorsCount: U8,
    expiryTime: I64)

  /** The two arrays have their fixed length of five. */
  predicate WellFormed(rec: Record)
  {
    |rec.allowedDepositors| == SLOTS && |rec.deposits| == SLOTS
  }

  /** The accounting invariant: the total is the sum of the slots, and every
      non-zero slot was counted by a successful deposit. The count may exceed
      the number of non-zero slots, because a deposit of zero succeeds and
      leaves its slot empty. */
  predicate Accounting(rec: Record)
  {
    rec.totalCollected == Sum(rec.deposits) && NonZeroCount(rec.deposits) <= rec.depositorsCount
  }

  /** The outcome of a `deposit` instruction and the account after it. */
  datatype Step = Step(outcome: Outcome<Failure>, after: Record)

  /** The account that `initialize` creates. */
  function InitialRecord(signer: Pubkey, allowed: seq<Pubkey>, expiry: I64): (rec: Record)
    requires |allowed| == SLOTS
    ensures WellFormed(rec) && Accounting(rec)
    ensures NonZeroCount(rec.deposits) == 0
  {
    var zeros := seq(SLOTS, _ => 0);
    ZeroSlots(zeros);
    Record(signer, allowed, zeros, 0, 0, expiry)
  }

  /** Everything a successful deposit into slot `i` changes, and nothing else. */
  ghost predicate Credited(before: Record, after: Record, i: nat, amount: U64)
    requires WellFormed(before) && i < SLOTS
  {
    && after.authority == before.authority
    && after.allowedDepositors == before.allowedDepositors
    && after.expiryTime == before.expiryTime
    && |after.deposits| == SLOTS
    && after.deposits[i] == amount
    && (forall j :: 0 <= j < SLOTS && j != i ==> after.deposits[j] == before.deposits[j])
    && after.totalCollected == before.totalCollected + amount
    && after.depositorsCount == before.depositorsCount + 1
  }

  /** The conditions under which `deposit` does succeed. */
  ghost predicate Admitted(rec: Record, depositor: Pubkey, amount: U64, now: I64, transferOk: bool)
    requires WellFormed(rec)
  {
    && now < rec.expiryTime
    && depositor in rec.allowedDepositors
    && rec.deposits[FirstIndex(rec.allowedDepositors, depositor).value] == 0
    && transferOk
    && rec.totalCollected + amount <= U64_MAX
    && rec.depositorsCount < U8_MAX
  }

  /** One `deposit` instruction, with its guards in the program's order. */
  function DepositTransition(rec: Record, depositor: Pubkey, amount: U64, now: I64, transferOk: bool): (s: Step)
    requires WellFormed(rec)
    ensures WellFormed(s.after)
    ensures s.outcome.Err? ==> s.after == rec
    ensures now >= rec.expiryTime ==> s.outcome == Err(Program(FundingTimeExpired))
    ensures now < rec.expiryTime && depositor !in rec.allowedDepositors ==>
      s.outcome == Err(Program(UnauthorizedDepositAddress))
    ensures (now < rec.expiryTime && depositor in rec.allowedDepositors &&
             rec.deposits[FirstIndex(rec.allowedDepositors, depositor).value] != 0) ==>
      s.outcome == Err(Program(AlreadyDeposited))
    ensures (now < rec.expiryTime && depositor in rec.allowedDepositors &&
             rec.deposits[FirstIndex(rec.allowedDepositors, depositor).value] == 0 && !transferOk) ==>
      s.outcome == Err(TransferFailed)
    ensures s.outcome.Ok? <==> Admitted(rec, depositor, amount, now, transferOk)
    ensures s.outcome.Ok? ==>
      Credited(rec, s.after, FirstIndex(rec.allowedDepositors, depositor).value, amount)
  {
    if !(now < rec.expiryTime) then Step(Err(Program(FundingTimeExpired)), rec)
    else match FirstIndex(rec.allowedDepositors, depositor)
      case None => Step(Err(Program(UnauthorizedDepositAddress)), rec)
      case Some(i) =>
        if rec.deposits[i] != 0 then Step(Err(Program(AlreadyDeposited)), rec)
        else if !transferOk then Step(Err(TransferFailed), rec)
        else if rec.totalCollected + amount > U64_MAX || rec.depositorsCount + 1 > U8_MAX then
          Step(Err(ArithmeticOverflow), rec)
        else
          Step(Ok, rec.(deposits := rec.deposits[i := amount],
                        totalCollected := rec.totalCollected + amount,
                        depositorsCount := rec.depositorsCount + 1))
  }

  /** Every deposit, successful or not, keeps the accounting invariant. */
  lemma DepositPreservesAccounting(rec: Record, depositor: Pubkey, amount: U64, now: I64, transferOk: bool)
    requires WellFormed(rec) && Accounting(rec)
    ensures Accounting(DepositTransition(rec, depositor, amount, now, transferOk).after)
  {
    var s := DepositTransition(rec, depositor, amount, now, transferOk);
    if s.outcome.Ok? {
      var i := FirstIndex(rec.allowedDepositors, depositor).value;
      assert s.after.deposits == rec.deposits[i := amount];
      SumUpdate(rec.deposits, i, amount);
      NonZeroCountFill(rec.deposits, i, amount);
    }
  }

  /** A key listed twice in the whitelist only ever uses its first slot: the
      later slot is never written by that key's deposits. */
  lemma DuplicateKeyUsesFirstSlot(rec: Record, depositor: Pubkey, amount: U64, now: I64, transferOk: bool,
                                  i: nat, j: nat)
    requires WellFormed(rec) && i < j < SLOTS
    requires rec.allowedDepositors[i] == depositor && rec.allowedDepositors[j] == depositor
    ensures DepositTransition(rec, depositor, amount, now, transferOk).after.deposits[j] == rec.deposits[j]
  {
    var first := FirstIndex(rec.allowedDepositors, depositor);
    assert first.Some? && first.value <= i;
  }

  /** A deposit of zero succeeds without filling the slot, so the same caller
      can deposit again: `depositors_count` counts successful calls, not
      non-zero slots. */
  lemma ZeroDepositRepeats(rec: Record, depositor: Pubkey, now: I64)
    requires WellFormed(rec) && now < rec.expiryTime
    requires depositor in rec.allowedDepositors
    requires rec.deposits[FirstIndex(rec.allowedDepositors, depositor).value] == 0
    requires rec.depositorsCount + 2 <= U8_MAX
    ensures var first := DepositTransition(rec, depositor, 0, now, true);
            var second := DepositTransition(first.after, depositor, 0, now, true);
            && first.outcome == Ok && second.outcome == Ok
            && second.after.deposits == rec.deposits
            && second.after.totalCollected == rec.totalCollected
            && second.after.depositorsCount == rec.depositorsCount + 2
  {
    var i := FirstIndex(rec.allowedDepositors, depositor).value;
    var first := DepositTransition(rec, depositor, 0, now, true);
    assert first.after.deposits == rec.deposits[i := 0] == rec.deposits;
  }

  /** The count and the number of non-zero slots can differ on an account
      that a fresh `initialize` and two successful deposits reach. */
  lemma CountDiffersFromNonZeroSlots(signer: Pubkey, allowed: seq<Pubkey>, expiry: I64, now: I64)
    requires |allowed| == SLOTS && now < expiry
    ensures var init := InitialRecord(signer, allowed, expiry);
            var first := DepositTransition(init, allowed[0], 0, now, true);
            var second := DepositTransition(first.after, allowed[0], 0, now, true);
            && second.outcome == Ok
            && second.after.depositorsCount == 2
            && NonZeroCount(second.after.deposits) == 0
  {
    var init := InitialRecord(signer, allowed, expiry);
    FirstIndexIs(allowed, allowed[0], 0);
    ZeroDepositRepeats(init, allowed[0], now);
  }

  /** The run of the program's test suite: five distinct whitelisted keys;
      the first deposits 1 SOL; an outsider is refused; three more keys
      deposit; the last of them is refused a second deposit. A round whose
      expiry time has passed refuses even a whitelisted key. */
  lemma FundingRoundScenario(signer: Pubkey, keys: seq<Pubkey>, outsider: Pubkey,
                             expiry: I64, now: I64, expired: I64)
    requires |keys| == SLOTS && outsider !in keys
    requires forall i, j :: 0 <= i < j < SLOTS ==> keys[i] != keys[j]
    requires now < expiry && expired <= now
    ensures var sol := 1_000_000_000;
            var s0 := InitialRecord(signer, keys, expiry);
            var s1 := DepositTransition(s0, keys[0], sol, now, true);
            var s2 := DepositTransition(s1.after, outsider, sol, now, true);
            var s3 := DepositTransition(s2.after, keys[1], sol, now, true);
            var s4 := DepositTransition(s3.after, keys[2], sol, now, true);
            var s5 := DepositTransition(s4.after, keys[3], sol, now, true);
            var s6 := DepositTransition(s5.after, keys[3], sol, now, true);
            && s1.outcome == Ok
            && s1.after.deposits[0] == sol && s1.after.totalCollected == sol && s1.after.depositorsCount == 1
            && s2.outcome == Err(Program(UnauthorizedDepositAddress))
            && s3.outcome == Ok && s4.outcome == Ok && s5.outcome == Ok
            && s5.after.deposits == [sol, sol, sol, sol, 0]
            && s5.after.totalCollected == 4 * sol && s5.after.depositorsCount == 4
            && s6.outcome == Err(Program(AlreadyDeposited)) && s6.after == s5.after
            && DepositTransition(InitialRecord(signer, keys, expired), keys[0], sol, now, true).outcome
               == Err(Program(FundingTimeExpired))
  {
    FirstIndexIs(keys, keys[0], 0);
    FirstIndexIs(keys, keys[1], 1);
    FirstIndexIs(keys, keys[2], 2);
    FirstIndexIs(keys, keys[3], 3);
  }

  /** A `SolHolder` account, updated in place by the instructions. */
  class SolHolder {
    var authority: Pubkey
    var allowedDepositors: array<Pubkey>
    var deposits: array<U64>
    var totalCollected: U64
    var depositorsCount: U8
    var expiryTime: I64

    ghost predicate Shaped()
      reads this
    {
      allowedDepositors.Length == SLOTS && deposits.Length == SLOTS
    }

    /** The account's current contents. */
    ghost function Snapshot(): (rec: Record)
      reads this, allowedDepositors, deposits
      ensures Shaped() ==> WellFormed(rec)
    {
      Record(authority, allowedDepositors[..], deposits[..], totalCollected, depositorsCount, expiryTime)
    }

    /** `initialize`: the signer becomes the authority, the whitelist and the
        expiry time are stored, and all deposit state starts at zero. */
    constructor Initialize(signer: Pubkey, allowed: seq<Pubkey>, expiry: I64)
      requires |allowed| == SLOTS
      ensures Shaped() && fresh(allowedDepositors) && fresh(deposits)
      ensures authority == signer && allowedDepositors[..] == allowed
      ensures forall i :: 0 <= i < SLOTS ==> deposits[i] == 0
      ensures totalCollected == 0 && depositorsCount == 0 && expiryTime == expiry
      ensures Snapshot() == InitialRecord(signer, allowed, expiry) && Accounting(Snapshot())
    {
      authority := signer;
      allowedDepositors := new Pubkey[SLOTS](i requires 0 <= i < SLOTS => allowed[i]);
      deposits := new U64[SLOTS](_ => 0);
      totalCollected := 0;
      depositorsCount := 0;
      expiryTime := expiry;
      new;
      assert deposits[..] == seq(SLOTS, _ => 0);
    }

    /** The whitelist scan: the least index whose key equals `key`. */
    method Position(key: Pubkey) returns (idx: Option<nat>)
      requires Shaped()
      ensures idx == FirstIndex(allowedDepositors[..], key)
    {
      var i := 0;
      while i < allowedDepositors.Length
        invariant 0 <= i <= allowedDepositors.Length
        invariant forall j :: 0 <= j < i ==> allowedDepositors[j] != key
      {
        if allowedDepositors[i] == key {
          FirstIndexIs(allowedDepositors[..], key, i);
          return Some(i);
        }
        i := i + 1;
      }
      return None;
    }

    /** `deposit`: the guards in the program's order, then the transfer, then
        the record update. An overflow in the additions aborts the whole
        instruction, which the runtime rolls back, so it is checked before the
        writes and leaves the account as it was. */
    method Deposit(depositor: Pubkey, amount: U64, now: I64, transferOk: bool) returns (r: Outcome<Failure>)
      requires Shaped()
      modifies this`totalCollected, this`depositorsCount, deposits
      ensures Shaped()
      ensures Step(r, Snapshot()) == DepositTransition(old(Snapshot()), depositor, amount, now, transferOk)
      ensures old(Accounting(Snapshot())) ==> Accounting(Snapshot())
    {
      ghost var before := Snapshot();
      if Accounting(before) {
        DepositPreservesAccounting(before, depositor, amount, now, transferOk);
      }
      if !(now < expiryTime) {
        return Err(Program(FundingTimeExpired));
      }
      var found := Position(depositor);
      if found.None? {
        return Err(Program(UnauthorizedDepositAddress));
      }
      var i := found.value;
      if deposits[i] != 0 {
        return Err(Program(AlreadyDeposited));
      }
      if !transferOk {
        return Err(TransferFailed);
      }
      if totalCollected + amount > U64_MAX || depositorsCount + 1 > U8_MAX {
        return Err(ArithmeticOverflow);
      }
      deposits[i] := amount;
      totalCollected := totalCollected + amount;
      depositorsCount := depositorsCount + 1;
      return Ok;
    }
  }
}
