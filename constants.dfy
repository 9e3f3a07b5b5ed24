/** The fixed sizes and notices of the reply pipeline. */
module Constants {

  /** Telegram's hard ceiling on one message, in characters. */
  const MaxTelegramLength: nat := 4096

  /** The window the chunker cuts; it leaves headroom for the continuation notice. */
  const SafeSplitLength: nat := 3800

  /** Appended to every chunk that is followed by another ("continued in the next message"). */
  const CleanupMessage: string := "\n\n_Продолжение в следующем сообщении..._"

  /** Appended to a reply truncated after Telegram said it was too long
      ("the message was cut because of Telegram's limits"). */
  const OverflowMessage: string := "\n\n_Сообщение было обрезано из-за ограничений Telegram._"
}
