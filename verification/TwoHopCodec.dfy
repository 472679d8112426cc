/**
  The wire format of the two-hop executor: the client builds an instruction, the on-chain program
  takes it apart again.
 */
module TwoHopCodec {
  import opened Wrappers
  import opened Bytes

  type Pubkey = string
  type U16 = x: nat | x <= U16_MAX
  type U64 = x: nat | x <= U64_MAX

  const EXECUTE_TAG: Byte := 0

  datatype AccountMeta = AccountMeta(key: Pubkey, isSigner: bool, isWritable: bool)

  datatype Instruction = Instruction(programId: Pubkey, accounts: seq<AccountMeta>, data: seq<Byte>)

  datatype ProgramError =
    | InvalidInstruction
    | NotEnoughAccounts
    | InvalidAmountOffset
    | InvalidTokenAccount
    | FirstLegDidNotIncreaseIntermediateBalance
    | ProfitBelowThreshold
    | CpiFailed(code: nat)

  // ---------- the program's side ----------

  datatype ExecuteTwoHopArgs = ExecuteTwoHopArgs(
    minProfitRaw: U64,
    secondLegAmountInOffset: U16,
    firstLegAccountsLen: Byte,
    secondLegAccountsLen: Byte,
    firstLegData: seq<Byte>,
    secondLegData: seq<Byte>)

  /** The message after its tag: a fixed header, then the data of both legs. */
  function PackedArgs(a: ExecuteTwoHopArgs): seq<Byte> {
    ToLe(a.minProfitRaw, 8) + ToLe(a.secondLegAmountInOffset, 2)
    + [a.firstLegAccountsLen] + [a.secondLegAccountsLen]
    + ToLe(|a.firstLegData|, 2) + ToLe(|a.secondLegData|, 2)
    + a.firstLegData + a.secondLegData
  }

  function Packed(a: ExecuteTwoHopArgs): seq<Byte> {
    [EXECUTE_TAG] + PackedArgs(a)
  }

  method Pack(a: ExecuteTwoHopArgs) returns (out: seq<Byte>)
    ensures out == Packed(a)
  {
    hide ToLe;
    out := [EXECUTE_TAG];
    out := out + ToLe(a.minProfitRaw, 8);
    out := out + ToLe(a.secondLegAmountInOffset, 2);
    out := out + [a.firstLegAccountsLen];
    out := out + [a.secondLegAccountsLen];
    out := out + ToLe(|a.firstLegData|, 2);
    out := out + ToLe(|a.secondLegData|, 2);
    out := out + a.firstLegData;
    out := out + a.secondLegData;
  }

  function U16At(input: seq<Byte>, offset: nat): (n: U16)
    requires offset + 2 <= |input|
  {
    FromLeBound(input[offset..offset + 2]);
    Powers();
    FromLe(input[offset..offset + 2])
  }

  function U64At(input: seq<Byte>, offset: nat): (n: U64)
    requires offset + 8 <= |input|
  {
    FromLeBound(input[offset..offset + 8]);
    Powers();
    FromLe(input[offset..offset + 8])
  }

  const ARGS_HEADER_LEN: nat := 8 + 2 + 1 + 1 + 2 + 2

  /** The arguments that an input without tag spells, if its lengths account for every byte. */
  function Parsed(input: seq<Byte>): Result<ExecuteTwoHopArgs, ProgramError> {
    if |input| < ARGS_HEADER_LEN then Err(InvalidInstruction)
    else
      var first, second := U16At(input, 12), U16At(input, 14);
      if |input| != ARGS_HEADER_LEN + first + second then Err(InvalidInstruction)
      else Ok(ExecuteTwoHopArgs(
        U64At(input, 0), U16At(input, 8), input[10], input[11],
        input[ARGS_HEADER_LEN..ARGS_HEADER_LEN + first], input[ARGS_HEADER_LEN + first..]))
  }

  /** A reader that moves over its input and never past the end. */
  class Cursor {
    const input: seq<Byte>
    var offset: nat

    ghost predicate Valid()
      reads this
    {
      offset <= |input|
    }

    constructor (input: seq<Byte>)
      ensures Valid() && this.input == input && offset == 0
    {
      this.input := input;
      offset := 0;
    }

    method ReadBytes(len: nat) returns (r: Result<seq<Byte>, ProgramError>)
      requires Valid()
      modifies this
      ensures Valid()
      ensures old(offset) + len <= |input| ==>
                r == Ok(input[old(offset)..old(offset) + len]) && offset == old(offset) + len
      ensures old(offset) + len > |input| ==> r == Err(InvalidInstruction) && offset == old(offset)
    {
      var end := offset + len;
      if end > |input| { return Err(InvalidInstruction); }
      r := Ok(input[offset..end]);
      offset := end;
    }

    method ReadU8() returns (r: Result<Byte, ProgramError>)
      requires Valid()
      modifies this
      ensures Valid()
      ensures old(offset) + 1 <= |input| ==> r == Ok(input[old(offset)]) && offset == old(offset) + 1
      ensures old(offset) + 1 > |input| ==> r == Err(InvalidInstruction)
    {
      var bytes := ReadBytes(1);
      if bytes.Err? { return Err(bytes.error); }
      return Ok(bytes.value[0]);
    }

    method ReadU16() returns (r: Result<U16, ProgramError>)
      requires Valid()
      modifies this
      ensures Valid()
      ensures old(offset) + 2 <= |input| ==> r == Ok(U16At(input, old(offset))) && offset == old(offset) + 2
      ensures old(offset) + 2 > |input| ==> r == Err(InvalidInstruction)
    {
      var bytes := ReadBytes(2);
      if bytes.Err? { return Err(bytes.error); }
      FromLeBound(bytes.value);
      Powers();
      return Ok(FromLe(bytes.value));
    }

    method ReadU64() returns (r: Result<U64, ProgramError>)
      requires Valid()
      modifies this
      ensures Valid()
      ensures old(offset) + 8 <= |input| ==> r == Ok(U64At(input, old(offset))) && offset == old(offset) + 8
      ensures old(offset) + 8 > |input| ==> r == Err(InvalidInstruction)
    {
      var bytes := ReadBytes(8);
      if bytes.Err? { return Err(bytes.error); }
      FromLeBound(bytes.value);
      Powers();
      return Ok(FromLe(bytes.value));
    }

    method RemainingLen() returns (n: nat)
      requires Valid()
      ensures n == |input| - offset
    {
      n := |input| - offset;
    }
  }

  method UnpackArgs(input: seq<Byte>) returns (r: Result<ExecuteTwoHopArgs, ProgramError>)
    ensures r == Parsed(input)
  {
    hide FromLe;
    var cursor := new Cursor(input);
    var minProfit := cursor.ReadU64();
    if minProfit.Err? { return Err(minProfit.error); }
    var amountOffset := cursor.ReadU16();
    if amountOffset.Err? { return Err(amountOffset.error); }
    var firstAccounts := cursor.ReadU8();
    if firstAccounts.Err? { return Err(firstAccounts.error); }
    var secondAccounts := cursor.ReadU8();
    if secondAccounts.Err? { return Err(secondAccounts.error); }
    var firstLen := cursor.ReadU16();
    if firstLen.Err? { return Err(firstLen.error); }
    var secondLen := cursor.ReadU16();
    if secondLen.Err? { return Err(secondLen.error); }
    var firstData := cursor.ReadBytes(firstLen.value);
    if firstData.Err? { return Err(firstData.error); }
    var secondData := cursor.ReadBytes(secondLen.value);
    if secondData.Err? { return Err(secondData.error); }
    var left := cursor.RemainingLen();
    if left != 0 { return Err(InvalidInstruction); }
    ghost var mid := ARGS_HEADER_LEN + |firstData.value|;
    assert input[mid..mid + |secondData.value|] == input[mid..];
    return Ok(ExecuteTwoHopArgs(minProfit.value, amountOffset.value, firstAccounts.value, secondAccounts.value,
                                firstData.value, secondData.value));
  }

  function Unpacked(input: seq<Byte>): Result<ExecuteTwoHopArgs, ProgramError> {
    if input == [] || input[0] != EXECUTE_TAG then Err(InvalidInstruction) else Parsed(input[1..])
  }

  method Unpack(input: seq<Byte>) returns (r: Result<ExecuteTwoHopArgs, ProgramError>)
    ensures r == Unpacked(input)
  {
    if |input| == 0 { return Err(InvalidInstruction); }
    if input[0] != EXECUTE_TAG { return Err(InvalidInstruction); }
    r := UnpackArgs(input[1..]);
  }

  // ---------- packing and unpacking undo each other ----------

  lemma Appended(s: seq<Byte>, t: seq<Byte>)
    ensures |s + t| == |s| + |t|
    ensures (s + t)[|s|..] == t
    ensures forall i, j :: 0 <= i <= j <= |s| ==> (s + t)[i..j] == s[i..j]
  {}

  /** The fields of a packed message lie where the parser reads them. */
  lemma PackedLayout(a: ExecuteTwoHopArgs)
    ensures |PackedArgs(a)| == ARGS_HEADER_LEN + |a.firstLegData| + |a.secondLegData|
    ensures var body := PackedArgs(a);
            && body[0..8] == ToLe(a.minProfitRaw, 8) && body[8..10] == ToLe(a.secondLegAmountInOffset, 2)
            && body[10] == a.firstLegAccountsLen && body[11] == a.secondLegAccountsLen
            && body[12..14] == ToLe(|a.firstLegData|, 2) && body[14..16] == ToLe(|a.secondLegData|, 2)
            && body[16..16 + |a.firstLegData|] == a.firstLegData
            && body[16 + |a.firstLegData|..] == a.secondLegData
  {
    hide ToLe;
    var h1 := ToLe(a.minProfitRaw, 8);
    var h2 := h1 + ToLe(a.secondLegAmountInOffset, 2);
    var h3 := h2 + [a.firstLegAccountsLen] + [a.secondLegAccountsLen];
    var h4 := h3 + ToLe(|a.firstLegData|, 2);
    var h5 := h4 + ToLe(|a.secondLegData|, 2);
    var h6 := h5 + a.firstLegData;
    var body := h6 + a.secondLegData;
    Appended(h1, ToLe(a.secondLegAmountInOffset, 2));
    Appended(h2 + [a.firstLegAccountsLen], [a.secondLegAccountsLen]);
    Appended(h3, ToLe(|a.firstLegData|, 2));
    Appended(h4, ToLe(|a.secondLegData|, 2));
    Appended(h5, a.firstLegData);
    Appended(h6, a.secondLegData);
    assert body == PackedArgs(a);
    assert body[..16] == h5;
    assert h5[0..8] == h1 && h5[8..10] == h2[8..10];
  }

  /** Unpacking recovers what was packed exactly when both data lengths fit their 16-bit fields. */
  lemma UnpackPacked(a: ExecuteTwoHopArgs)
    ensures Unpacked(Packed(a)) == Ok(a) <==> |a.firstLegData| <= U16_MAX && |a.secondLegData| <= U16_MAX
  {
    hide ToLe, FromLe, PackedArgs;
    PackedLayout(a);
    assert Packed(a)[1..] == PackedArgs(a);
    Powers();
    if |a.firstLegData| <= U16_MAX && |a.secondLegData| <= U16_MAX {
      DecodeEncode(a.minProfitRaw, 8);
      DecodeEncode(a.secondLegAmountInOffset, 2);
      DecodeEncode(|a.firstLegData|, 2);
      DecodeEncode(|a.secondLegData|, 2);
    }
  }

  /** First-leg data one byte too long packs to a message that does not unpack at all. */
  lemma LongDataIsRejected(a: ExecuteTwoHopArgs)
    requires |a.firstLegData| == U16_MAX + 1 && |a.secondLegData| <= U16_MAX
    ensures Unpacked(Packed(a)) == Err(InvalidInstruction)
  {
    hide PackedArgs;
    PackedLayout(a);
    Powers();
    DecodeEncode(|a.secondLegData|, 2);
    assert Packed(a)[1..] == PackedArgs(a);
    assert ToLe(U16_MAX + 1, 2) == [0] + ToLe(256, 1) && ToLe(256, 1) == [0] + ToLe(1, 0);
    assert FromLe(ToLe(U16_MAX + 1, 2)) == 0;
  }

  /** Whatever unpacks is the packing of what it unpacks to: no second spelling, no trailing bytes. */
  lemma PackUnpacked(input: seq<Byte>)
    requires Unpacked(input).Ok?
    ensures Packed(Unpacked(input).value) == input
  {
    hide ToLe, FromLe;
    var a := Unpacked(input).value;
    var body := input[1..];
    EncodeDecode(body[0..8]);
    EncodeDecode(body[8..10]);
    EncodeDecode(body[12..14]);
    EncodeDecode(body[14..16]);
    PackedLayout(a);
    var packed := PackedArgs(a);
    assert packed[0..8] == body[0..8] && packed[8..10] == body[8..10];
    assert packed[12..14] == body[12..14] && packed[14..16] == body[14..16];
    var n := 16 + |a.firstLegData|;
    assert packed[16..n] == body[16..n] && packed[n..] == body[n..];
    SameByParts(packed, body, n);
    assert input == [input[0]] + body;
  }

  lemma SameByParts(s: seq<Byte>, t: seq<Byte>, n: nat)
    requires |s| == |t| && 16 <= n <= |s|
    requires s[0..8] == t[0..8] && s[8..10] == t[8..10] && s[10] == t[10] && s[11] == t[11]
    requires s[12..14] == t[12..14] && s[14..16] == t[14..16] && s[16..n] == t[16..n] && s[n..] == t[n..]
    ensures s == t
  {
    assert s == s[0..8] + s[8..10] + [s[10]] + [s[11]] + s[12..14] + s[14..16] + s[16..n] + s[n..];
    assert t == t[0..8] + t[8..10] + [t[10]] + [t[11]] + t[12..14] + t[14..16] + t[16..n] + t[n..];
  }

  /** Where the fields of a message are, byte by byte: the tag is zero and numbers are little-endian. */
  lemma MessageLayout(a: ExecuteTwoHopArgs, i: nat)
    ensures Packed(a)[0] == 0
    ensures |Packed(a)| == 17 + |a.firstLegData| + |a.secondLegData|
    ensures i < 8 ==> Packed(a)[1 + i] == a.minProfitRaw / Pow256(i) % 256
    ensures i < 2 ==> Packed(a)[9 + i] == a.secondLegAmountInOffset / Pow256(i) % 256
    ensures Packed(a)[11] == a.firstLegAccountsLen && Packed(a)[12] == a.secondLegAccountsLen
    ensures i < 2 ==> Packed(a)[13 + i] == |a.firstLegData| / Pow256(i) % 256
    ensures i < 2 ==> Packed(a)[15 + i] == |a.secondLegData| / Pow256(i) % 256
    ensures i < |a.firstLegData| ==> Packed(a)[17 + i] == a.firstLegData[i]
    ensures i < |a.secondLegData| ==> Packed(a)[17 + |a.firstLegData| + i] == a.secondLegData[i]
  {
    hide ToLe, PackedArgs;
    var body, n := PackedArgs(a), 16 + |a.firstLegData|;
    PackedLayout(a);
    if i < 8 {
      ByteOfLe(a.minProfitRaw, 8, i);
      assert body[0..8][i] == body[i];
    }
    if i < 2 {
      ByteOfLe(a.secondLegAmountInOffset, 2, i);
      ByteOfLe(|a.firstLegData|, 2, i);
      ByteOfLe(|a.secondLegData|, 2, i);
      assert body[8..10][i] == body[8 + i] && body[12..14][i] == body[12 + i] && body[14..16][i] == body[14 + i];
    }
    if i < |a.firstLegData| { assert body[16..n][i] == body[16 + i]; }
    if i < |a.secondLegData| { assert body[n..][i] == body[n + i]; }
  }

  // ---------- the client's side ----------

  datatype ClientArgs = ClientArgs(
    minProfitRaw: U64,
    secondLegAmountInOffset: U16,
    firstLegData: seq<Byte>,
    secondLegData: seq<Byte>)

  datatype ClientError =
    | FirstAccountsTooLong(len: nat)
    | SecondAccountsTooLong(len: nat)
    | FirstDataTooLong
    | SecondDataTooLong

  method ClientPack(a: ClientArgs, firstAccounts: nat, secondAccounts: nat) returns (r: Result<seq<Byte>, ClientError>)
    ensures r.Ok?
        <==> firstAccounts < 256 && secondAccounts < 256 && |a.firstLegData| <= U16_MAX && |a.secondLegData| <= U16_MAX
    ensures r.Ok? ==> r.value == Packed(ExecuteTwoHopArgs(
                a.minProfitRaw, a.secondLegAmountInOffset, firstAccounts, secondAccounts, a.firstLegData,
                    a.secondLegData))
  {
    hide ToLe, U16At, U64At;
    if firstAccounts > 255 { return Err(FirstAccountsTooLong(firstAccounts)); }
    if secondAccounts > 255 { return Err(SecondAccountsTooLong(secondAccounts)); }
    if |a.firstLegData| > U16_MAX { return Err(FirstDataTooLong); }
    if |a.secondLegData| > U16_MAX { return Err(SecondDataTooLong); }
    var out: seq<Byte> := [EXECUTE_TAG];
    out := out + ToLe(a.minProfitRaw, 8);
    out := out + ToLe(a.secondLegAmountInOffset, 2);
    out := out + [firstAccounts];
    out := out + [secondAccounts];
    out := out + ToLe(|a.firstLegData|, 2);
    out := out + ToLe(|a.secondLegData|, 2);
    out := out + a.firstLegData;
    out := out + a.secondLegData;
    return Ok(out);
  }

  datatype Legs = Legs(
    quote: AccountMeta,
    intermediate: AccountMeta,
    firstProgram: AccountMeta,
    secondProgram: AccountMeta,
    firstAccounts: seq<AccountMeta>,
    secondAccounts: seq<AccountMeta>)

  /** How the program divides the accounts it is given. */
  function SplitAccounts(accounts: seq<AccountMeta>, firstLen: nat, secondLen: nat): Result<Legs, ProgramError> {
    if |accounts| < 4 || |accounts| - 4 < firstLen + secondLen then Err(NotEnoughAccounts)
    else Ok(Legs(accounts[0], accounts[1], accounts[2], accounts[3],
                 accounts[4..4 + firstLen], accounts[4 + firstLen..4 + firstLen + secondLen]))
  }

  /** Dividing takes four accounts and those of both legs, in that order; more accounts are ignored. */
  lemma SplitExactly(accounts: seq<AccountMeta>, firstLen: nat, secondLen: nat)
    ensures var r := SplitAccounts(accounts, firstLen, secondLen);
            && (r.Ok? <==> 4 + firstLen + secondLen <= |accounts|)
            && (r.Ok? ==>
                  var legs := r.value;
                  && |legs.firstAccounts| == firstLen && |legs.secondAccounts| == secondLen
                  && accounts[..4 + firstLen + secondLen]
                     == [legs.quote] + [legs.intermediate] + [legs.firstProgram] + [legs.secondProgram]
                        + legs.firstAccounts + legs.secondAccounts)
  {}

  /** The program unpacks and divides an instruction into these two legs and these token accounts. */
  predicate Carries(
    built: Instruction, quote: Pubkey, intermediate: Pubkey, first: Instruction, second: Instruction,
    minProfitRaw: U64, secondLegAmountInOffset: U16)
  {
    && |first.accounts| < 256 && |second.accounts| < 256
    && Unpacked(built.data) == Ok(ExecuteTwoHopArgs(
         minProfitRaw, secondLegAmountInOffset, |first.accounts|, |second.accounts|, first.data, second.data))
    && SplitAccounts(built.accounts, |first.accounts|, |second.accounts|) == Ok(Legs(
         AccountMeta(quote, false, true), AccountMeta(intermediate, false, true),
         AccountMeta(first.programId, false, false), AccountMeta(second.programId, false, false),
         first.accounts, second.accounts))
  }

  /**
    Builds the instruction. Whenever that succeeds, the program unpacks and divides it into exactly
    the two legs that the client put in; it fails exactly when a length does not fit its field.
   */
  method BuildExecuteTwoHopInstruction(
    programId: Pubkey, quote: Pubkey, intermediate: Pubkey, first: Instruction, second: Instruction,
    minProfitRaw: U64, secondLegAmountInOffset: U16)
    returns (r: Result<Instruction, ClientError>)
    ensures r.Ok?
        <==> |first.accounts| <= 255 && |second.accounts| <= 255 && |first.data| <= 65535 && |second.data| <= 65535
    ensures r.Ok? ==>
              && r.value.programId == programId
              && Carries(r.value, quote, intermediate, first, second, minProfitRaw, secondLegAmountInOffset)
  {
    hide Unpacked, Packed;
    var accounts: seq<AccountMeta> := [];
    accounts := accounts + [AccountMeta(quote, false, true)];
    accounts := accounts + [AccountMeta(intermediate, false, true)];
    accounts := accounts + [AccountMeta(first.programId, false, false)];
    accounts := accounts + [AccountMeta(second.programId, false, false)];
    accounts := accounts + first.accounts;
    accounts := accounts + second.accounts;
    assert accounts[4..4 + |first.accounts|] == first.accounts;
    assert accounts[4 + |first.accounts|..4 + |first.accounts| + |second.accounts|] == second.accounts;
    var data := ClientPack(ClientArgs(minProfitRaw, secondLegAmountInOffset, first.data, second.data),
                           |first.accounts|, |second.accounts|);
    if data.Err? { return Err(data.error); }
    UnpackPacked(ExecuteTwoHopArgs(
      minProfitRaw, secondLegAmountInOffset, |first.accounts|, |second.accounts|, first.data, second.data));
    return Ok(Instruction(programId, accounts, data.value));
  }
}
