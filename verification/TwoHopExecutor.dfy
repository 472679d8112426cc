/**
  The on-chain two-hop executor: run the first leg, measure what it brought in, inject that amount
  into the second leg, run it, and insist on a profit. The two legs may do anything to the ledger.
 */
module TwoHopExecutor {
  import opened Wrappers
  import opened Bytes
  import opened TwoHopCodec

  const TOKEN_ACCOUNT_AMOUNT_OFFSET: nat := 64
  const TOKEN_ACCOUNT_MIN_LEN: nat := TOKEN_ACCOUNT_AMOUNT_OFFSET + 8
  const RAYDIUM_CLMM_PROGRAM_ID: Pubkey := "CAMMCzo5YL8w4VFF8KVHrK22GGUsp5VTaW7grrKgrWqK"
  const INPUT_TOKEN_ACCOUNT_INDEX: nat := 3

  /** Data of every account; an account that is not listed has none. */
  type Ledger = map<Pubkey, seq<Byte>>

  /** What a called program does: any change to the ledger, or a failure with any code. */
  type Cpi = (Instruction, Ledger) -> Result<Ledger, nat>

  function DataOf(ledger: Ledger, key: Pubkey): seq<Byte> {
    if key in ledger then ledger[key] else []
  }

  function TokenAmount(ledger: Ledger, key: Pubkey): Result<U64, ProgramError> {
    if |DataOf(ledger, key)| < TOKEN_ACCOUNT_MIN_LEN then Err(InvalidTokenAccount)
    else Ok(U64At(DataOf(ledger, key), TOKEN_ACCOUNT_AMOUNT_OFFSET))
  }

  /** The account whose balance measures the first leg: the second leg's source when it is known. */
  function ObservedAccount(legs: Legs): Pubkey {
    if legs.secondProgram.key != RAYDIUM_CLMM_PROGRAM_ID then legs.intermediate.key
    else if |legs.secondAccounts| <= INPUT_TOKEN_ACCOUNT_INDEX then legs.intermediate.key
    else legs.secondAccounts[INPUT_TOKEN_ACCOUNT_INDEX].key
  }

  /** The amount to inject: what the first leg brought in, at most what the source account holds. */
  function AdjustedAmountIn(legs: Legs, ledger: Ledger, delta: U64): Result<U64, ProgramError> {
    if delta == 0 then Ok(0)
    else if legs.secondProgram.key != RAYDIUM_CLMM_PROGRAM_ID then Ok(delta)
    else if |legs.secondAccounts| <= INPUT_TOKEN_ACCOUNT_INDEX then Ok(delta)
    else
      var source := TokenAmount(ledger, legs.secondAccounts[INPUT_TOKEN_ACCOUNT_INDEX].key);
      if source.Err? then Err(source.error)
      else
        var adjusted: U64 := if delta <= source.value then delta else source.value;
        if adjusted == 0 then Err(FirstLegDidNotIncreaseIntermediateBalance) else Ok(adjusted)
  }

  /** The required balance and what is missing from it, if a positive minimum profit was missed. */
  function ProfitShortfall(before: U64, after: U64, minProfit: U64): Option<(U64, U64)> {
    if minProfit == 0 then None
    else
      var required: U64 := if before + minProfit <= U64_MAX then before + minProfit else U64_MAX;
      if after < required then Some((required, required - after)) else None
  }

  function WithAmount(data: seq<Byte>, offset: nat, amount: U64): seq<Byte>
    requires offset + 8 <= |data|
  {
    data[..offset] + ToLe(amount, 8) + data[offset + 8..]
  }

  /** A completed execution, with the ledgers and the call in between. */
  datatype Execution = Execution(afterFirst: Ledger, second: Instruction, injected: U64, afterSecond: Ledger)

  function FirstCall(legs: Legs, args: ExecuteTwoHopArgs): Instruction {
    Instruction(legs.firstProgram.key, legs.firstAccounts, args.firstLegData)
  }

  /** What the program does with one ledger: the steps in their order, each with its own failure. */
  function Executed(accounts: seq<AccountMeta>, args: ExecuteTwoHopArgs, ledger: Ledger, firstCpi: Cpi, secondCpi: Cpi)
    : Result<Execution, ProgramError>
  {
    var split := SplitAccounts(accounts, args.firstLegAccountsLen, args.secondLegAccountsLen);
    if split.Err? then Err(split.error) else
    var legs := split.value;
    var quoteBefore := TokenAmount(ledger, legs.quote.key);
    if quoteBefore.Err? then Err(quoteBefore.error) else
    var before := TokenAmount(ledger, ObservedAccount(legs));
    if before.Err? then Err(before.error) else
    var first := firstCpi(FirstCall(legs, args), ledger);
    if first.Err? then Err(CpiFailed(first.error)) else
    var after := TokenAmount(first.value, ObservedAccount(legs));
    if after.Err? then Err(after.error) else
    if after.value <= before.value then Err(FirstLegDidNotIncreaseIntermediateBalance) else
    var injected := AdjustedAmountIn(legs, first.value, after.value - before.value);
    if injected.Err? then Err(injected.error) else
    if |args.secondLegData| < args.secondLegAmountInOffset + 8 then Err(InvalidAmountOffset) else
    var call := Instruction(legs.secondProgram.key, legs.secondAccounts,
                            WithAmount(args.secondLegData, args.secondLegAmountInOffset, injected.value));
    var second := secondCpi(call, first.value);
    if second.Err? then Err(CpiFailed(second.error)) else
    var quoteAfter := TokenAmount(second.value, legs.quote.key);
    if quoteAfter.Err? then Err(quoteAfter.error) else
    if ProfitShortfall(quoteBefore.value, quoteAfter.value, args.minProfitRaw).Some? then Err(ProfitBelowThreshold)
    else Ok(Execution(first.value, call, injected.value, second.value))
  }

  /** The runtime around the program: calls change its ledger, and a failed instruction is undone. */
  class Runtime {
    var ledger: Ledger

    constructor (ledger: Ledger)
      ensures this.ledger == ledger
    {
      this.ledger := ledger;
    }

    method Invoke(call: Instruction, cpi: Cpi) returns (r: Result<(), ProgramError>)
      modifies this
      ensures match cpi(call, old(ledger))
              case Ok(after) => r == Ok(()) && ledger == after
              case Err(code) => r == Err(CpiFailed(code)) && ledger == old(ledger)
    {
      var outcome := cpi(call, ledger);
      if outcome.Err? { return Err(CpiFailed(outcome.error)); }
      ledger := outcome.value;
      return Ok(());
    }

    method ExecuteTwoHop(accounts: seq<AccountMeta>, args: ExecuteTwoHopArgs, firstCpi: Cpi, secondCpi: Cpi)
      returns (r: Result<(), ProgramError>)
      modifies this
      ensures match Executed(accounts, args, old(ledger), firstCpi, secondCpi)
              case Ok(e) => r == Ok(()) && ledger == e.afterSecond
              case Err(error) => r == Err(error)
    {
      hide TokenAmount, AdjustedAmountIn, ObservedAccount;
      var split := SplitAccounts(accounts, args.firstLegAccountsLen, args.secondLegAccountsLen);
      if split.Err? { return Err(split.error); }
      var legs := split.value;
      var observed := ObservedAccount(legs);
      var quoteBefore := TokenAmount(ledger, legs.quote.key);
      if quoteBefore.Err? { return Err(quoteBefore.error); }
      var before := TokenAmount(ledger, observed);
      if before.Err? { return Err(before.error); }
      var done := Invoke(FirstCall(legs, args), firstCpi);
      if done.Err? { return done; }
      var after := TokenAmount(ledger, observed);
      if after.Err? { return Err(after.error); }
      if after.value < before.value { return Err(FirstLegDidNotIncreaseIntermediateBalance); }
      var delta: U64 := after.value - before.value;
      if delta == 0 { return Err(FirstLegDidNotIncreaseIntermediateBalance); }
      var injected := AdjustedAmountIn(legs, ledger, delta);
      if injected.Err? { return Err(injected.error); }
      var offset: nat := args.secondLegAmountInOffset;
      if |args.secondLegData| < offset + 8 { return Err(InvalidAmountOffset); }
      var data := args.secondLegData;
      data := data[..offset] + ToLe(injected.value, 8) + data[offset + 8..];
      done := Invoke(Instruction(legs.secondProgram.key, legs.secondAccounts, data), secondCpi);
      if done.Err? { return done; }
      var quoteAfter := TokenAmount(ledger, legs.quote.key);
      if quoteAfter.Err? { return Err(quoteAfter.error); }
      var shortfall := ProfitShortfall(quoteBefore.value, quoteAfter.value, args.minProfitRaw);
      if shortfall.Some? { return Err(ProfitBelowThreshold); }
      return Ok(());
    }

    /** One whole instruction: it completes, or the ledger is as if it had never run. */
    method ProcessInstruction(accounts: seq<AccountMeta>, data: seq<Byte>, firstCpi: Cpi, secondCpi: Cpi)
      returns (r: Result<(), ProgramError>)
      modifies this
      ensures r.Err? ==> ledger == old(ledger)
      ensures r.Ok? ==>
                && Unpacked(data).Ok?
                && var e := Executed(accounts, Unpacked(data).value, old(ledger), firstCpi, secondCpi);
                   e.Ok? && ledger == e.value.afterSecond
      ensures Unpacked(data).Ok? && Executed(accounts, Unpacked(data).value, old(ledger), firstCpi, secondCpi).Ok?
          ==> r.Ok?
    {
      hide Executed, Unpacked;
      var snapshot := ledger;
      var args := Unpack(data);
      if args.Err? { return Err(args.error); }
      r := ExecuteTwoHop(accounts, args.value, firstCpi, secondCpi);
      if r.Err? { ledger := snapshot; }
    }
  }

  // ---------- what a completed execution guarantees ----------

  /**
    The amount injected is positive and is what the first leg brought into the observed account: the
    clamp to the source balance never lowers it, because that source is the account observed.
   */
  lemma InjectedIsTheFirstLegsYield(
    accounts: seq<AccountMeta>, args: ExecuteTwoHopArgs, ledger: Ledger, firstCpi: Cpi, secondCpi: Cpi,
    e: Execution, legs: Legs)
    requires Executed(accounts, args, ledger, firstCpi, secondCpi) == Ok(e)
    requires SplitAccounts(accounts, args.firstLegAccountsLen, args.secondLegAccountsLen) == Ok(legs)
    ensures firstCpi(Instruction(legs.firstProgram.key, legs.firstAccounts, args.firstLegData), ledger)
            == Ok(e.afterFirst)
    ensures secondCpi(e.second, e.afterFirst) == Ok(e.afterSecond)
    ensures TokenAmount(ledger, ObservedAccount(legs)).Ok? && TokenAmount(e.afterFirst, ObservedAccount(legs)).Ok?
    ensures e.injected > 0
    ensures TokenAmount(ledger, ObservedAccount(legs)).value + e.injected
        == TokenAmount(e.afterFirst, ObservedAccount(legs)).value
  {
    hide TokenAmount;
  }

  /** The second leg receives its own data with the injected amount written over eight bytes. */
  lemma OnlyTheAmountIsPatched(
    accounts: seq<AccountMeta>, args: ExecuteTwoHopArgs, ledger: Ledger, firstCpi: Cpi, secondCpi: Cpi,
    e: Execution, legs: Legs)
    requires Executed(accounts, args, ledger, firstCpi, secondCpi) == Ok(e)
    requires SplitAccounts(accounts, args.firstLegAccountsLen, args.secondLegAccountsLen) == Ok(legs)
    ensures e.second.programId == legs.secondProgram.key && e.second.accounts == legs.secondAccounts
    ensures var from, data := args.secondLegAmountInOffset, e.second.data;
            && |data| == |args.secondLegData| && from + 8 <= |data|
            && FromLe(data[from..from + 8]) == e.injected
            && forall i :: 0 <= i < |data| && !(from <= i < from + 8) ==> data[i] == args.secondLegData[i]
  {
    hide TokenAmount, AdjustedAmountIn, ToLe, FromLe;
    var from := args.secondLegAmountInOffset;
    assert e.second.data == WithAmount(args.secondLegData, from, e.injected);
    assert e.second.data[from..from + 8] == ToLe(e.injected, 8);
    Powers();
    DecodeEncode(e.injected, 8);
  }

  /**
    End to end: when an instruction built by the client completes, the first call was exactly the first leg
    the client gave, the second call the second leg but for the eight bytes of its amount, and that amount
    is what the first leg brought in.
   */
  lemma BuiltLegsAreCalled(
    built: Instruction, quote: Pubkey, intermediate: Pubkey, first: Instruction, second: Instruction,
    minProfitRaw: U64, offset: U16, ledger: Ledger, firstCpi: Cpi, secondCpi: Cpi, e: Execution)
    requires Carries(built, quote, intermediate, first, second, minProfitRaw, offset)
    requires Executed(built.accounts, Unpacked(built.data).value, ledger, firstCpi, secondCpi) == Ok(e)
    ensures firstCpi(first, ledger) == Ok(e.afterFirst)
    ensures secondCpi(e.second, e.afterFirst) == Ok(e.afterSecond)
    ensures offset + 8 <= |second.data|
    ensures e.second == second.(data := second.data[..offset] + ToLe(e.injected, 8) + second.data[offset + 8..])
    ensures minProfitRaw > 0 ==>
              var before, after := TokenAmount(ledger, quote), TokenAmount(e.afterSecond, quote);
              && before.Ok? && after.Ok?
              && (after.value >= before.value + minProfitRaw || after.value == 0xFFFF_FFFF_FFFF_FFFF)
  {
    hide TokenAmount, AdjustedAmountIn, ToLe, Unpacked;
  }

  /** Which account measures the first leg: the fourth of a Raydium leg, if there is one. */
  lemma MeasuredAccount(legs: Legs)
    ensures ObservedAccount(legs)
            == if legs.secondProgram.key == "CAMMCzo5YL8w4VFF8KVHrK22GGUsp5VTaW7grrKgrWqK" && |legs.secondAccounts| > 3
               then legs.secondAccounts[3].key else legs.intermediate.key
  {}

  /** The clamp, for any amount: to the balance of a Raydium leg's fourth account, which must not be empty then. */
  lemma ClampExactly(legs: Legs, ledger: Ledger, delta: U64)
    ensures var r := AdjustedAmountIn(legs, ledger, delta);
            if delta == 0 || !HasSource(legs) then r == Ok(delta)
            else
              var source := TokenAmount(ledger, legs.secondAccounts[3].key);
              if source.Err? then r == Err(source.error)
              else if source.value == 0 then r == Err(FirstLegDidNotIncreaseIntermediateBalance)
              else r.Ok? && r.value <= delta && r.value <= source.value && (r.value == delta || r.value == source.value)
  {
    hide TokenAmount;
  }

  /** The second leg is a Raydium leg with a fourth account. */
  predicate HasSource(legs: Legs) {
    legs.secondProgram.key == "CAMMCzo5YL8w4VFF8KVHrK22GGUsp5VTaW7grrKgrWqK" && |legs.secondAccounts| > 3
  }

  /** A token account is any of at least 72 bytes, and its balance is the number in the last eight of those. */
  lemma BalanceIsRead(ledger: Ledger, key: Pubkey)
    ensures TokenAmount(ledger, key).Ok? <==> key in ledger && |ledger[key]| >= 72
    ensures TokenAmount(ledger, key).Ok? ==> ToLe(TokenAmount(ledger, key).value, 8) == ledger[key][64..72]
  {
    hide FromLe, ToLe;
    if key in ledger && |ledger[key]| >= 72 { EncodeDecode(ledger[key][64..72]); }
  }

  /** What is reported as missing is what the final balance lacks, and nothing is without a minimum. */
  lemma ShortfallExactly(before: U64, after: U64, minProfit: U64)
    ensures var r := ProfitShortfall(before, after, minProfit);
            && (r.None? <==> minProfit == 0 || after >= before + minProfit || after == 0xFFFF_FFFF_FFFF_FFFF)
            && (r.Some? ==>
                  && after + r.value.1 == r.value.0
                  && (r.value.0 == before + minProfit || r.value.0 == 0xFFFF_FFFF_FFFF_FFFF)
                  && r.value.0 <= before + minProfit)
  {}

  /** Once both calls have been made, an execution completes exactly when the profit is met. */
  lemma CompletesExactly(
    accounts: seq<AccountMeta>, args: ExecuteTwoHopArgs, ledger: Ledger, firstCpi: Cpi, secondCpi: Cpi,
    legs: Legs, mid: Ledger, end: Ledger)
    requires SplitAccounts(accounts, args.firstLegAccountsLen, args.secondLegAccountsLen) == Ok(legs)
    requires firstCpi(Instruction(legs.firstProgram.key, legs.firstAccounts, args.firstLegData), ledger) == Ok(mid)
    requires forall call: Instruction :: secondCpi(call, mid) == Ok(end)
    ensures var observed, quote := ObservedAccount(legs), legs.quote.key;
            var before, between := TokenAmount(ledger, observed), TokenAmount(mid, observed);
            var start, final := TokenAmount(ledger, quote), TokenAmount(end, quote);
            Executed(accounts, args, ledger, firstCpi, secondCpi).Ok? <==>
              && start.Ok? && before.Ok? && between.Ok? && final.Ok?
              && between.value > before.value
              && args.secondLegAmountInOffset + 8 <= |args.secondLegData|
              && (args.minProfitRaw == 0
                  || final.value >= start.value + args.minProfitRaw
                  || final.value == 0xFFFF_FFFF_FFFF_FFFF)
  {
    hide TokenAmount, ToLe;
  }

  /**
    With a positive minimum profit, a completed execution has raised the quote balance by at least
    that much exactly when the balance it requires can be represented; otherwise it has raised the
    balance to the largest there is.
   */
  lemma ProfitGuaranteed(
    accounts: seq<AccountMeta>, args: ExecuteTwoHopArgs, ledger: Ledger, firstCpi: Cpi, secondCpi: Cpi,
    e: Execution, legs: Legs)
    requires Executed(accounts, args, ledger, firstCpi, secondCpi) == Ok(e)
    requires SplitAccounts(accounts, args.firstLegAccountsLen, args.secondLegAccountsLen) == Ok(legs)
    requires args.minProfitRaw > 0
    ensures TokenAmount(ledger, legs.quote.key).Ok? && TokenAmount(e.afterSecond, legs.quote.key).Ok?
    ensures var before, after := TokenAmount(ledger, legs.quote.key).value,
        TokenAmount(e.afterSecond, legs.quote.key).value;
            && (after >= before + args.minProfitRaw <==> before + args.minProfitRaw <= U64_MAX)
            && (before + args.minProfitRaw > U64_MAX ==> after == U64_MAX)
  {
    hide TokenAmount, AdjustedAmountIn;
  }

  function AccountHolding(amount: U64): seq<Byte> {
    ToLe(0, TOKEN_ACCOUNT_AMOUNT_OFFSET) + ToLe(amount, 8)
  }

  /** A quote account that holds the largest balance there is, and an intermediate account. */
  function FullLedger(intermediate: U64): Ledger {
    map["quote" := AccountHolding(U64_MAX)]["intermediate" := AccountHolding(intermediate)]
  }

  lemma HoldingReadsBack(ledger: Ledger, key: Pubkey, amount: U64)
    requires key in ledger && ledger[key] == AccountHolding(amount)
    ensures TokenAmount(ledger, key) == Ok(amount)
  {
    hide ToLe, FromLe;
    assert AccountHolding(amount)[TOKEN_ACCOUNT_AMOUNT_OFFSET..TOKEN_ACCOUNT_AMOUNT_OFFSET + 8] == ToLe(amount, 8);
    Powers();
    DecodeEncode(amount, 8);
  }

  /** With the quote balance at its largest, a minimum profit of one is met by no profit at all. */
  lemma NoProfitAtTheTop(firstCpi: Cpi, secondCpi: Cpi, quote: AccountMeta, mid: AccountMeta, program: AccountMeta)
    requires quote.key == "quote" && mid.key == "intermediate" && program.key != RAYDIUM_CLMM_PROGRAM_ID
    requires forall call: Instruction, ledger: Ledger :: firstCpi(call, ledger) == Ok(FullLedger(1))
    requires forall call: Instruction, ledger: Ledger :: secondCpi(call, ledger) == Ok(ledger)
    ensures var accounts := [quote, mid, program, program];
            var e := Executed(accounts, ExecuteTwoHopArgs(1, 0, 0, 0, [], ToLe(0, 8)), FullLedger(0),
                firstCpi, secondCpi);
            e.Ok? && TokenAmount(e.value.afterSecond, "quote") == TokenAmount(FullLedger(0), "quote") == Ok(U64_MAX)
  {
    hide TokenAmount, AccountHolding, ToLe;
    HoldingReadsBack(FullLedger(0), "quote", U64_MAX);
    HoldingReadsBack(FullLedger(1), "quote", U64_MAX);
    HoldingReadsBack(FullLedger(0), "intermediate", 0);
    HoldingReadsBack(FullLedger(1), "intermediate", 1);
  }

  /** A remark: with no minimum profit any readable final balance completes, whatever it is. */
  lemma NoMinimumNoGuarantee(
    accounts: seq<AccountMeta>, args: ExecuteTwoHopArgs, ledger: Ledger, firstCpi: Cpi, secondCpi: Cpi,
    otherCpi: Cpi, e: Execution, legs: Legs)
    requires Executed(accounts, args, ledger, firstCpi, secondCpi) == Ok(e) && args.minProfitRaw == 0
    requires SplitAccounts(accounts, args.firstLegAccountsLen, args.secondLegAccountsLen) == Ok(legs)
    requires otherCpi(e.second, e.afterFirst).Ok?
        && TokenAmount(otherCpi(e.second, e.afterFirst).value, legs.quote.key).Ok?
    ensures Executed(accounts, args, ledger, firstCpi, otherCpi)
            == Ok(e.(afterSecond := otherCpi(e.second, e.afterFirst).value))
  {
    hide TokenAmount, AdjustedAmountIn;
  }
}
