/** The ledger program is the grid game without its expiry gate: on a round
    that has not yet expired, the two `deposit` instructions agree on the
    outcome and on every field the ledger has, and the grid game keeps its
    expiry time. */
module LedgerMatchesGridGame {
  import opened Escrow
  import G = SolanaGridGame
  import L = ValorantPerformanceLedger

  /** A grid-game account without its expiry time. */
  function Forget(rec: G.Record): L.Record
  {
    L.Record(rec.authority, rec.allowedDepositors, rec.deposits, rec.totalCollected, rec.depositorsCount)
  }

  /** Each ledger failure names the grid-game failure of the same name. */
  function EmbedFailure(f: L.Failure): G.Failure
  {
    if f.TransferFailed? then G.TransferFailed
    else if f.ArithmeticOverflow? then G.ArithmeticOverflow
    else if f.code.UnauthorizedDepositAddress? then G.Program(G.UnauthorizedDepositAddress)
    else G.Program(G.AlreadyDeposited)
  }

  function Embed(o: Outcome<L.Failure>): Outcome<G.Failure>
  {
    if o.Ok? then Ok else Err(EmbedFailure(o.error))
  }

  /** Both programs create the same account apart from the expiry time. */
  lemma InitializeAgrees(signer: Pubkey, allowed: seq<Pubkey>, expiry: I64)
    requires |allowed| == SLOTS
    ensures Forget(G.InitialRecord(signer, allowed, expiry)) == L.InitialRecord(signer, allowed)
    ensures G.InitialRecord(signer, allowed, expiry).expiryTime == expiry
  {
  }

  /** Before expiry, a grid-game deposit is a ledger deposit. */
  lemma DepositAgreesBeforeExpiry(rec: G.Record, depositor: Pubkey, amount: U64, now: I64, transferOk: bool)
    requires G.WellFormed(rec) && now < rec.expiryTime
    ensures var g := G.DepositTransition(rec, depositor, amount, now, transferOk);
            var l := L.DepositTransition(Forget(rec), depositor, amount, transferOk);
            && g.outcome == Embed(l.outcome)
            && Forget(g.after) == l.after
            && g.after.expiryTime == rec.expiryTime
  {
  }

  /** The ledger has no time gate: the one failure it cannot produce is the
      grid game's `FundingTimeExpired`, which the grid game reports for every
      caller once the round has expired. */
  lemma OnlyGridGameExpires(rec: G.Record, depositor: Pubkey, amount: U64, now: I64, transferOk: bool)
    requires G.WellFormed(rec)
    ensures Embed(L.DepositTransition(Forget(rec), depositor, amount, transferOk).outcome)
            != Err(G.Program(G.FundingTimeExpired))
    ensures now >= rec.expiryTime ==>
            G.DepositTransition(rec, depositor, amount, now, transferOk).outcome
            == Err(G.Program(G.FundingTimeExpired))
  {
  }
}
