/** Error values and the result wrapper shared by the bot's operations. */
module Errors {

  /** The errors the bot reports to its caller instead of panicking. */
  datatype Error =
    | TokensUnreadable     // readFile("tokens.txt") failed
    | NoTokens             // tokens.txt holds no non-blank line
    | MessagesUnreadable   // readFile("msg.txt") failed
    | NoUsableAccounts     // every token failed to log in (corrected initialisation only)

  /** A value that may be missing. */
  datatype Option<T> = None | Some(value: T)

  /** Either a value or the error that replaced it. */
  datatype Result<T> = Ok(value: T) | Err(error: Error)
}
