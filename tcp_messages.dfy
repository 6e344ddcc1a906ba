/** The two messages a TCP endpoint exchanges between its halves: the
    sender's segment and the receiver's acknowledgment and window. */
module TCPMessages {
  import opened Common

  /** `TCPSenderMessage`: a segment as a sender describes it. */
  datatype SenderMessage = SenderMessage(seqno: u32, SYN: bool, payload: Bytes, FIN: bool, RST: bool)

  /** `TCPReceiverMessage`: the acknowledgment number (absent before the
      connection is established), the window and the reset flag. */
  datatype ReceiverMessage = ReceiverMessage(ackno: Option<u32>, windowSize: u16, RST: bool)
}
