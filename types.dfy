/** Machine integers, account keys and the error values the beamsplitter program returns. */
module Types {

  const U64_MAX: int := 0xFFFF_FFFF_FFFF_FFFF

  type U8 = x: int | 0 <= x <= 0xFF
  type U16 = x: int | 0 <= x <= 0xFFFF
  type U64 = x: int | 0 <= x <= 0xFFFF_FFFF_FFFF_FFFF

  /** An account address. The program only ever compares addresses for equality. */
  type Pubkey = nat

  /** The program's own error codes, in declaration order. */
  datatype BeamsplitterError =
    | NotMintAuthority
    | NonZeroSupply
    | NoSameMintAccounts
    | EmptyDeposit
    | SwapTokensCannotMatch
    | SlippageExceeded
    | ETFFull
    | IsFinished
    | StillPending
    | IncorrectOrderStatus
    | IncorrectOrderType
    | NotEnoughApproved
    | IndexPassedBound
    | WrongIndexMint
    | ScaleFailure
    | U64Failure
    | PrismEtfNotFinished
    | ZeroOrder
    | ZeroWeight

  /** Why an instruction failed. The handlers mix the program's named errors with the
      runtime's generic `InvalidArgument`; the model keeps the two apart. */
  datatype ProgramError =
    | Custom(code: BeamsplitterError)  // one of the program's named errors
    | InvalidArgument                  // the runtime's generic invalid-argument error
    | TokenFailure                     // the token program refused a transfer, mint or burn
    | Panic                            // an abort: array index out of bounds, decimal overflow

  datatype Option<+T> = None | Some(value: T)

  datatype Result<+T> = Ok(value: T) | Err(error: ProgramError)

  /** The result of an instruction: every instruction returns either success or one error. */
  datatype Outcome = Pass | Fail(error: ProgramError)

  function Max(a: int, b: int): int {
    if a < b then b else a
  }
}
